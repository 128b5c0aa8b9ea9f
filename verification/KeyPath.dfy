/** Keys as paths: how a flat etcd key is cut into segments at a one-character separator,
    which keys are canonical, and how string prefixes relate to path prefixes. */
module KeyPath {
  import opened Text

  type Path = seq<string>

  /** strings.Split at a one-character separator. */
  function Split(s: string, sep: char): (parts: seq<string>)
    ensures |parts| >= 1
  {
    if s == "" then [""]
    else
      var rest := Split(s[1..], sep);
      if s[0] == sep then [""] + rest else [[s[0]] + rest[0]] + rest[1..]
  }

  /** The non-empty members of a list of parts, in order. */
  function NonEmpty(parts: seq<string>): Path {
    if parts == [] then []
    else if parts[0] == "" then NonEmpty(parts[1..])
    else [parts[0]] + NonEmpty(parts[1..])
  }

  /** The path of a key: its non-empty parts. */
  function Segments(key: string, sep: char): Path {
    NonEmpty(Split(key, sep))
  }

  predicate StartsWith(s: string, prefix: string) {
    prefix <= s
  }

  /** A segment is non-empty text without the separator. */
  predicate IsSegment(s: string, sep: char) {
    s != "" && sep !in s
  }

  predicate IsPath(p: Path, sep: char) {
    forall i :: 0 <= i < |p| ==> IsSegment(p[i], sep)
  }

  /** Every segment written after a separator: sep + strings.Join(p, sep) for a non-empty path. */
  function Render(p: Path, sep: char): string {
    if p == [] then "" else [sep] + p[0] + Render(p[1..], sep)
  }

  /** A canonical key starts with the separator and has no empty segment after it. */
  predicate Canonical(key: string, sep: char) {
    key != "" && key[0] == sep && "" !in Split(key, sep)[1..]
  }

  // ---------------------------------------------------------------- Split

  lemma {:induction false} SplitParts(s: string, sep: char)
    ensures forall i :: 0 <= i < |Split(s, sep)| ==> sep !in Split(s, sep)[i]
  {
    if s != "" {
      SplitParts(s[1..], sep);
    }
  }

  /** Two lists of parts laid end to end, the last part of the first glued to the first of the second. */
  function Seam(x: seq<string>, y: seq<string>): seq<string>
    requires |x| >= 1 && |y| >= 1
  {
    x[..|x| - 1] + [x[|x| - 1] + y[0]] + y[1..]
  }

  lemma SeamAfterEmpty(x: seq<string>, y: seq<string>)
    requires |x| >= 1 && |y| >= 1
    ensures Seam([""] + x, y) == [""] + Seam(x, y)
  {
    assert ([""] + x)[..|x|] == [""] + x[..|x| - 1];
  }

  lemma SeamAfterChar(x: seq<string>, y: seq<string>, c: char)
    requires |x| >= 1 && |y| >= 1
    ensures Seam([[c] + x[0]] + x[1..], y) == [[c] + Seam(x, y)[0]] + Seam(x, y)[1..]
  {
    var x' := [[c] + x[0]] + x[1..];
    if |x| == 1 {
      assert [c] + x[0] + y[0] == [c] + (x[0] + y[0]);
    } else {
      assert x'[..|x| - 1] == [[c] + x[0]] + x[1..|x| - 1];
    }
  }

  lemma SplitEmpty(sep: char)
    ensures Split("", sep) == [""] && Segments("", sep) == []
  {
    assert [""][1..] == [];
  }

  /** Splitting a concatenation joins the last part of one half to the first part of the other. */
  lemma {:induction false} SplitConcat(a: string, b: string, sep: char)
    ensures Split(a + b, sep) == Seam(Split(a, sep), Split(b, sep))
  {
    if a == "" {
      assert a + b == b;
      assert "" + Split(b, sep)[0] == Split(b, sep)[0];
    } else {
      SplitConcat(a[1..], b, sep);
      assert (a + b)[1..] == a[1..] + b;
      var y := Split(b, sep);
      if a[0] == sep {
        SeamAfterEmpty(Split(a[1..], sep), y);
      } else {
        SeamAfterChar(Split(a[1..], sep), y, a[0]);
      }
    }
  }

  lemma {:induction false} SplitNoSep(s: string, sep: char)
    requires sep !in s
    ensures Split(s, sep) == [s]
  {
    if s != "" {
      SplitNoSep(s[1..], sep);
      assert [s[0]] + s[1..] == s;
    }
  }

  lemma NonEmptyCons(part: string, parts: seq<string>, b: seq<string>)
    requires NonEmpty(parts + b) == NonEmpty(parts) + NonEmpty(b)
    ensures NonEmpty([part] + parts + b) == NonEmpty([part] + parts) + NonEmpty(b)
  {
    var all := [part] + parts + b;
    assert all[0] == part && all[1..] == parts + b;
    assert ([part] + parts)[1..] == parts;
    var head: Path, x, y := if part == "" then [] else [part], NonEmpty(parts), NonEmpty(b);
    assert head + (x + y) == head + x + y;
  }

  lemma {:induction false} NonEmptyConcat(a: seq<string>, b: seq<string>)
    ensures NonEmpty(a + b) == NonEmpty(a) + NonEmpty(b)
  {
    if a == [] {
      assert a + b == b;
    } else {
      NonEmptyConcat(a[1..], b);
      NonEmptyCons(a[0], a[1..], b);
      assert [a[0]] + a[1..] == a;
    }
  }

  lemma {:induction false} NonEmptyMembers(parts: seq<string>)
    ensures forall s :: s in NonEmpty(parts) <==> s in parts && s != ""
  {
    if parts != [] {
      NonEmptyMembers(parts[1..]);
      assert parts == [parts[0]] + parts[1..];
    }
  }

  lemma {:induction false} NonEmptyIdentity(parts: seq<string>)
    requires "" !in parts
    ensures NonEmpty(parts) == parts
  {
    if parts != [] {
      assert parts[0] in parts;
      NonEmptyIdentity(parts[1..]);
    }
  }

  // ------------------------------------------------------------- Segments

  /** Segments never are empty and never contain the separator. */
  lemma SegmentsArePath(key: string, sep: char)
    ensures IsPath(Segments(key, sep), sep)
  {
    var parts := Split(key, sep);
    SplitParts(key, sep);
    NonEmptyMembers(parts);
    forall i | 0 <= i < |Segments(key, sep)| ensures IsSegment(Segments(key, sep)[i], sep) {
      assert Segments(key, sep)[i] in parts;
    }
  }

  lemma SplitAcrossSep(a: string, b: string, sep: char)
    ensures Split(a + [sep] + b, sep) == Split(a, sep) + Split(b, sep)
  {
    var x, y := Split(a, sep), Split(b, sep);
    var tail := [sep] + b;
    assert tail[1..] == b;
    SplitConcat(a, tail, sep);
    assert a + tail == a + [sep] + b;
    assert x[|x| - 1] + "" == x[|x| - 1];
    assert Seam(x, [""] + y) == x + y;
  }

  /** Cutting at an explicit separator concatenates paths. */
  lemma SegmentsAcrossSep(a: string, b: string, sep: char)
    ensures Segments(a + [sep] + b, sep) == Segments(a, sep) + Segments(b, sep)
  {
    SplitAcrossSep(a, b, sep);
    NonEmptyConcat(Split(a, sep), Split(b, sep));
  }

  /** Extending a key never loses a segment: all but the last survive unchanged, the last may grow. */
  lemma SegmentsGrow(a: string, b: string, sep: char)
    ensures |Segments(a, sep)| <= |Segments(a + b, sep)|
    ensures var n := |Segments(a, sep)|; n > 0 ==>
              Segments(a + b, sep)[..n - 1] == Segments(a, sep)[..n - 1]
              && Segments(a, sep)[n - 1] <= Segments(a + b, sep)[n - 1]
  {
    var x, y := Split(a, sep), Split(b, sep);
    SplitConcat(a, b, sep);
    SeamGrows(x[..|x| - 1], x[|x| - 1], y[0], y[1..]);
    assert x == x[..|x| - 1] + [x[|x| - 1]];
  }

  lemma SeamGrows(init: seq<string>, last: string, more: string, rest: seq<string>)
    ensures var p, r := NonEmpty(init + [last]), NonEmpty(init + [last + more] + rest);
            && |p| <= |r|
            && (|p| > 0 ==> r[..|p| - 1] == p[..|p| - 1] && p[|p| - 1] <= r[|p| - 1])
  {
    var before, after := NonEmpty(init), NonEmpty([last + more] + rest);
    NonEmptyConcat(init, [last]);
    NonEmptyOne(last);
    assert init + [last + more] + rest == init + ([last + more] + rest);
    NonEmptyConcat(init, [last + more] + rest);
    if last != "" {
      NonEmptyConcat([last + more], rest);
      NonEmptyOne(last + more);
      PrefixGrows(before, last, last + more, NonEmpty(rest));
    } else {
      assert before + [] == before;
      PrefixKept(before, after);
    }
  }

  lemma PrefixKept(before: Path, after: Path)
    ensures |before| <= |before + after|
    ensures |before| > 0 ==>
              (before + after)[..|before| - 1] == before[..|before| - 1] && (before + after)[|before| - 1] == before[|before| - 1]
  {
  }

  lemma NonEmptyOne(s: string)
    ensures NonEmpty([s]) == if s == "" then [] else [s]
  {
    assert [s][1..] == [];
  }

  lemma PrefixGrows(before: Path, last: string, grown: string, rest: Path)
    requires last <= grown
    ensures var p, r := before + [last], before + [grown] + rest;
            |p| <= |r| && r[..|p| - 1] == p[..|p| - 1] && p[|p| - 1] <= r[|p| - 1]
    ensures before + [grown] + rest == before + ([grown] + rest)
  {
    var r := before + [grown] + rest;
    assert r[..|before|] == before && (before + [last])[..|before|] == before;
  }

  // -------------------------------------------------------------- Render

  lemma {:induction false} SepJoinIsRender(p: Path, sep: char)
    requires p != []
    ensures [sep] + Join(p, [sep]) == Render(p, sep)
  {
    if |p| > 1 {
      SepJoinIsRender(p[1..], sep);
      assert [sep] + (p[0] + [sep] + Join(p[1..], [sep])) == [sep] + p[0] + ([sep] + Join(p[1..], [sep]));
    }
  }

  lemma {:induction false} RenderConcat(p: Path, q: Path, sep: char)
    ensures Render(p + q, sep) == Render(p, sep) + Render(q, sep)
  {
    if p == [] {
      assert p + q == q;
    } else {
      RenderConcat(p[1..], q, sep);
      assert (p + q)[1..] == p[1..] + q;
    }
  }

  /** Rendering a path and cutting it again gives the path back. */
  lemma {:induction false} SegmentsOfRender(p: Path, sep: char)
    requires IsPath(p, sep)
    ensures Split(Render(p, sep), sep) == [""] + p
    ensures Segments(Render(p, sep), sep) == p
  {
    if p != [] {
      assert IsSegment(p[0], sep);
      SegmentsOfRender(p[1..], sep);
      var body := p[0] + Render(p[1..], sep);
      SplitNoSep(p[0], sep);
      SplitConcat(p[0], Render(p[1..], sep), sep);
      assert p[0] + "" == p[0];
      assert Split(body, sep) == [p[0]] + p[1..] == p;
      assert Render(p, sep) == [sep] + body && ([sep] + body)[1..] == body;
    }
    NonEmptyIdentity(p);
  }

  lemma RenderGlue(parts: seq<string>, c: char, sep: char)
    requires |parts| >= 1
    ensures Render([[c] + parts[0]] + parts[1..], sep) == [sep, c] + Render(parts, sep)[1..]
  {
    var glued := [[c] + parts[0]] + parts[1..];
    var tail := Render(parts[1..], sep);
    assert glued[1..] == parts[1..];
    assert Render(parts, sep) == [sep] + (parts[0] + tail);
    assert [sep] + ([c] + parts[0]) + tail == [sep, c] + (parts[0] + tail);
  }

  lemma RenderAfterEmpty(parts: seq<string>, sep: char)
    ensures Render([""] + parts, sep) == [sep] + Render(parts, sep)
  {
    assert ([""] + parts)[1..] == parts;
  }

  lemma {:induction false} RenderOfSplit(s: string, sep: char)
    ensures Render(Split(s, sep), sep) == [sep] + s
  {
    if s == "" {
      RenderAfterEmpty([], sep);
      assert [""] + [] == [""];
    } else {
      var tail := s[1..];
      RenderOfSplit(tail, sep);
      RenderAfterEmpty(Split(tail, sep), sep);
      RenderGlue(Split(tail, sep), s[0], sep);
      assert s == [s[0]] + tail;
      assert ([sep] + tail)[1..] == tail;
      assert [sep] + ([s[0]] + tail) == [sep, s[0]] + tail;
    }
  }

  /** Canonical keys are exactly the renderings of non-empty paths, and each is the rendering of its own path. */
  lemma CanonicalIsRender(key: string, sep: char)
    ensures Canonical(key, sep) <==> Segments(key, sep) != [] && key == Render(Segments(key, sep), sep)
  {
    var parts := Split(key, sep);
    if Canonical(key, sep) {
      assert parts[0] == "";
      NonEmptyIdentity(parts[1..]);
      RenderOfSplit(key, sep);
      assert Render(parts, sep) == [sep] + Render(parts[1..], sep);
      assert ([sep] + key)[1..] == ([sep] + Render(parts[1..], sep))[1..];
      assert key == Render(parts[1..], sep);
    }
    if Segments(key, sep) != [] && key == Render(Segments(key, sep), sep) {
      SegmentsArePath(key, sep);
      SegmentsOfRender(Segments(key, sep), sep);
      NonEmptyMembers(parts);
    }
  }

  lemma CanonicalRender(p: Path, sep: char)
    requires IsPath(p, sep) && p != []
    ensures Canonical(Render(p, sep), sep)
  {
    SegmentsOfRender(p, sep);
    CanonicalIsRender(Render(p, sep), sep);
  }

  // ------------------------------------------- string prefix, path prefix

  /** The test the directory delete applies to every stored key: the key itself, or anything
      below key + separator; for the bare separator the second test is the separator alone. */
  predicate UnderKey(key: string, stored: string, sep: char) {
    stored == key || StartsWith(stored, if key == [sep] then [sep] else key + [sep])
  }

  /** On canonical keys the string test decides path prefix. */
  lemma UnderKeyIsPathPrefix(key: string, stored: string, sep: char)
    requires Canonical(stored, sep)
    requires key == "" || key == [sep] || Canonical(key, sep)
    ensures UnderKey(key, stored, sep) <==> Segments(key, sep) <= Segments(stored, sep)
  {
    var k, s := Segments(key, sep), Segments(stored, sep);
    CanonicalIsRender(stored, sep);
    if key == "" {
      assert StartsWith(stored, key + [sep]);
    } else if key == [sep] {
      assert Split(key, sep) == ["", ""] by { assert key[1..] == ""; }
      assert NonEmpty(["", ""]) == [] by { assert ["", ""][1..] == [""]; assert [""][1..] == []; }
    } else {
      CanonicalIsRender(key, sep);
      if k <= s {
        RenderConcat(k, s[|k|..], sep);
        assert s == k + s[|k|..];
        assert stored == key + Render(s[|k|..], sep);
      }
      if StartsWith(stored, key + [sep]) {
        var rest := stored[|key| + 1..];
        assert stored == key + [sep] + rest;
        SegmentsAcrossSep(key, rest, sep);
      }
    }
  }

  lemma BelowKeyIsLonger(key: string, stored: string, sep: char)
    requires Canonical(stored, sep) && StartsWith(stored, key + [sep]) && Segments(key, sep) != []
    ensures |Segments(stored, sep)| > |Segments(key, sep)|
  {
    var rest := stored[|key| + 1..];
    assert stored == key + [sep] + rest;
    SegmentsAcrossSep(key, rest, sep);
    var x, y := Split(key, sep), Split(rest, sep);
    SplitAcrossSep(key, rest, sep);
    NonEmptyMembers(y);
    assert (x + y)[|x|] == y[0] && (x + y)[1..][|x| - 1] == y[0];
    assert y[0] in Split(stored, sep)[1..];
    assert y[0] in NonEmpty(y);
  }

  /** For any other key the test misses a canonical key whose path extends the key's path,
      so it decides path prefix for exactly the keys named above. */
  lemma UnderKeyExact(key: string, sep: char, other: char)
    requires other != sep
    ensures (forall stored :: Canonical(stored, sep) ==>
                (UnderKey(key, stored, sep) <==> Segments(key, sep) <= Segments(stored, sep)))
            <==> key == "" || key == [sep] || Canonical(key, sep)
  {
    if key == "" || key == [sep] || Canonical(key, sep) {
      forall stored | Canonical(stored, sep)
        ensures UnderKey(key, stored, sep) <==> Segments(key, sep) <= Segments(stored, sep)
      {
        UnderKeyIsPathPrefix(key, stored, sep);
      }
    } else {
      var k := Segments(key, sep);
      SegmentsArePath(key, sep);
      CanonicalIsRender(key, sep);
      var p := if k == [] then [[other]] else k;
      assert IsPath(p, sep);
      var stored := Render(p, sep);
      CanonicalRender(p, sep);
      SegmentsOfRender(p, sep);
      assert k <= Segments(stored, sep);
      if k == [] {
        assert Render(p, sep) == [sep] + [other] by { assert p[1..] == []; }
        assert StartsWith(stored, key + [sep]) ==> key == [sep];
      } else if StartsWith(stored, key + [sep]) {
        BelowKeyIsLonger(key, stored, sep);
      }
      assert !UnderKey(key, stored, sep);
    }
  }
}
