/** The string operations the metrics parser is made of, with the facts about them it relies on. */
module PromChars {
  import opened Options

  /** unicode.IsSpace. */
  predicate IsSpace(c: char) {
    || c == '\t' || c == '\n' || c == '\U{000B}' || c == '\U{000C}' || c == '\r' || c == ' '
    || c == '\U{0085}' || c == '\U{00A0}' || c == '\U{1680}' || '\U{2000}' <= c <= '\U{200A}'
    || c == '\U{2028}' || c == '\U{2029}' || c == '\U{202F}' || c == '\U{205F}' || c == '\U{3000}'
  }

  predicate NoSpace(s: string) {
    forall i :: 0 <= i < |s| ==> !IsSpace(s[i])
  }

  function TrimLeftSpace(s: string): (r: string)
    ensures |r| <= |s|
  {
    if s != "" && IsSpace(s[0]) then TrimLeftSpace(s[1..]) else s
  }

  function TrimRightSpace(s: string): (r: string)
    ensures |r| <= |s|
  {
    if s != "" && IsSpace(s[|s| - 1]) then TrimRightSpace(s[..|s| - 1]) else s
  }

  /** strings.TrimSpace. */
  function TrimSpace(s: string): (r: string)
    ensures |r| <= |s|
  {
    TrimRightSpace(TrimLeftSpace(s))
  }

  /** strings.TrimLeft(s, ", "). */
  function TrimSeparators(s: string): (r: string)
    ensures |r| <= |s|
  {
    if s != "" && (s[0] == ',' || s[0] == ' ') then TrimSeparators(s[1..]) else s
  }

  /** strings.IndexByte: the first position of a character, or -1. */
  function IndexOf(s: string, c: char): (i: int)
    ensures -1 <= i < |s|
    ensures i >= 0 ==> s[i] == c && c !in s[..i]
    ensures i == -1 ==> c !in s
  {
    if s == "" then -1
    else if s[0] == c then 0
    else
      var i := IndexOf(s[1..], c);
      assert s == [s[0]] + s[1..];
      assert i >= 0 ==> s[..i + 1] == [s[0]] + s[1..][..i];
      if i < 0 then -1 else i + 1
  }

  /** strings.LastIndexByte: the last position of a character, or -1. */
  function LastIndexOf(s: string, c: char): (i: int)
    ensures -1 <= i < |s|
    ensures i >= 0 ==> s[i] == c && c !in s[i + 1..]
    ensures i == -1 ==> c !in s
  {
    if s == "" then -1
    else if s[|s| - 1] == c then |s| - 1
    else
      var i := LastIndexOf(s[..|s| - 1], c);
      assert s == s[..|s| - 1] + [s[|s| - 1]];
      assert i >= 0 ==> s[i + 1..] == s[..|s| - 1][i + 1..] + [s[|s| - 1]];
      i
  }

  /** The text before the first space, or all of it. */
  function FirstWord(s: string): string {
    var i := IndexOf(s, ' ');
    if i < 0 then s else s[..i]
  }

  /** strings.SplitN(s, " ", 2)[1], or nothing. */
  function AfterWord(s: string): string {
    var i := IndexOf(s, ' ');
    if i < 0 then "" else s[i + 1..]
  }

  /** The characters up to the first white space. */
  function Word(s: string): (w: string)
    ensures |w| <= |s| && w <= s && NoSpace(w)
    ensures s != "" && !IsSpace(s[0]) ==> w != ""
  {
    if s == "" || IsSpace(s[0]) then "" else [s[0]] + Word(s[1..])
  }

  /** strings.Fields. */
  function Fields(s: string): seq<string>
    decreases |s|
  {
    var t := TrimLeftSpace(s);
    TrimLeftStops(s);
    if t == "" then [] else [Word(t)] + Fields(t[|Word(t)|..])
  }

  lemma {:induction false} TrimLeftStops(s: string)
    ensures TrimLeftSpace(s) != "" ==> !IsSpace(TrimLeftSpace(s)[0])
  {
    if s != "" && IsSpace(s[0]) {
      TrimLeftStops(s[1..]);
    }
  }

  // ---------------------------------------------------------------- facts

  lemma TrimNothing(s: string)
    requires s != "" ==> !IsSpace(s[0]) && !IsSpace(s[|s| - 1])
    ensures TrimSpace(s) == s
  {
  }

  predicate EndsInSpace(s: string) {
    s != "" && IsSpace(s[|s| - 1])
  }

  lemma {:induction false} TrimRightStops(s: string)
    ensures !EndsInSpace(TrimRightSpace(s))
    ensures TrimRightSpace(s) == s <==> !EndsInSpace(s)
  {
    if EndsInSpace(s) {
      TrimRightStops(s[..|s| - 1]);
    }
  }

  /** Trimming the end of a text trims what was put last, and goes on before it only if nothing is left of that. */
  lemma {:induction false} TrimRightConcat(a: string, b: string)
    ensures TrimRightSpace(a + b) == if TrimRightSpace(b) == "" then TrimRightSpace(a) else a + TrimRightSpace(b)
  {
    if b == "" {
      assert a + b == a;
    } else if IsSpace(b[|b| - 1]) {
      TrimRightConcat(a, b[..|b| - 1]);
      assert (a + b)[..|a + b| - 1] == a + b[..|b| - 1];
    }
  }

  lemma {:induction false} TrimLeftSnoc(s: string, c: char)
    requires IsSpace(c)
    ensures TrimLeftSpace(s + [c]) == if TrimLeftSpace(s) == "" then "" else TrimLeftSpace(s) + [c]
  {
    if s == "" {
      assert s + [c] == [c] && [c][1..] == "";
    } else if IsSpace(s[0]) {
      TrimLeftSnoc(s[1..], c);
      assert (s + [c])[1..] == s[1..] + [c];
    }
  }

  /** White space at the end makes no difference to a trimmed line. */
  lemma TrimSnoc(s: string, c: char)
    requires IsSpace(c)
    ensures TrimSpace(s + [c]) == TrimSpace(s)
  {
    TrimLeftSnoc(s, c);
    var t := TrimLeftSpace(s);
    assert (t + [c])[..|t|] == t;
  }

  lemma {:induction false} WordThenSpace(w: string, rest: string)
    requires NoSpace(w)
    ensures Word(w + " " + rest) == w
  {
    if w == "" {
      assert w + " " + rest == " " + rest;
    } else {
      WordThenSpace(w[1..], rest);
      assert (w + " " + rest)[1..] == w[1..] + " " + rest;
    }
  }

  lemma {:induction false} WordOnly(w: string)
    requires NoSpace(w)
    ensures Word(w) == w
  {
    if w != "" {
      WordOnly(w[1..]);
    }
  }

  /** The first field of a line and the others. */
  lemma FieldsCons(w: string, rest: string)
    requires NoSpace(w) && w != ""
    ensures Fields(w + " " + rest) == [w] + Fields(rest)
  {
    var s := w + " " + rest;
    assert s[0] == w[0];
    WordThenSpace(w, rest);
    assert s[|w|..] == " " + rest;
    assert (" " + rest)[1..] == rest;
    assert TrimLeftSpace(" " + rest) == TrimLeftSpace(rest);
  }

  lemma OneField(w: string)
    requires NoSpace(w) && w != ""
    ensures Fields(w) == [w]
  {
    WordOnly(w);
    assert w[|w|..] == "";
  }

  lemma {:induction false} FirstIndex(a: string, c: char, b: string)
    requires c !in a
    ensures IndexOf(a + [c] + b, c) == |a|
  {
    if a == "" {
      assert a + [c] + b == [c] + b;
    } else {
      FirstIndex(a[1..], c, b);
      assert (a + [c] + b)[1..] == a[1..] + [c] + b;
    }
  }

  lemma {:induction false} NoIndex(s: string, c: char)
    requires c !in s
    ensures IndexOf(s, c) == -1
  {
  }

  lemma {:induction false} LastIndex(a: string, c: char, b: string)
    requires c !in b
    ensures LastIndexOf(a + [c] + b, c) == |a|
  {
    var s := a + [c] + b;
    if b == "" {
      assert s == a + [c];
    } else {
      LastIndex(a, c, b[..|b| - 1]);
      assert s[..|s| - 1] == a + [c] + b[..|b| - 1];
    }
  }

  /** The first word of a text and what follows its space. */
  lemma TwoParts(word: string, rest: string)
    requires ' ' !in word
    ensures FirstWord(word) == word && AfterWord(word) == ""
    ensures FirstWord(word + " " + rest) == word && AfterWord(word + " " + rest) == rest
  {
    NoIndex(word, ' ');
    FirstIndex(word, ' ', rest);
    assert word + [' '] + rest == word + " " + rest;
  }
}
