/** The Python string built-ins the engine relies on: `s.split(",")`,
    `s.strip()`, `sep.join(xs)`, the code-point order of `str` and
    `sorted(a_set)`. Each is written out once here with the facts the rest of
    the model needs about it. */
module Text {

  // ---------------------------------------------------------------------
  // str.strip()

  /** Python's `str.isspace`, which is what `str.strip()` removes: space,
      \t \n \v \f \r, the separators \x1c-\x1f, and the Unicode white space
      U+0085, U+00A0, U+1680, U+2000-U+200A, U+2028, U+2029, U+202F, U+205F
      and U+3000. */
  predicate IsSpace(c: char)
  {
    || c == ' ' || ('\t' <= c <= '\r') || ('\U{1C}' <= c <= '\U{1F}')
    || c == '\U{85}' || c == '\U{A0}' || c == '\U{1680}' || ('\U{2000}' <= c <= '\U{200A}')
    || c == '\U{2028}' || c == '\U{2029}' || c == '\U{202F}' || c == '\U{205F}' || c == '\U{3000}'
  }

  predicate AllSpace(s: string)
  {
    forall i :: 0 <= i < |s| ==> IsSpace(s[i])
  }

  /** Neither end of `s` is white space: `s.strip() == s`. */
  predicate Trimmed(s: string)
  {
    s == [] || (!IsSpace(s[0]) && !IsSpace(s[|s| - 1]))
  }

  function StripLeft(s: string): (r: string)
    ensures |r| <= |s|
    ensures r == [] || !IsSpace(r[0])
  {
    if |s| > 0 && IsSpace(s[0]) then StripLeft(s[1..]) else s
  }

  function StripRight(s: string): (r: string)
    ensures |r| <= |s|
    ensures r == [] || !IsSpace(r[|r| - 1])
  {
    if |s| > 0 && IsSpace(s[|s| - 1]) then StripRight(s[..|s| - 1]) else s
  }

  /** `s.strip()`: the longest slice of `s` whose ends are not white space
      (StripRemovesOnlySpace: it is obtained by removing white space only). */
  function Strip(s: string): (r: string)
    ensures Trimmed(r)
  {
    var l := StripLeft(s);
    var r := StripRight(l);
    StripRightPrefix(l);
    assert |r| > 0 ==> r[0] == l[0];
    r
  }

  /** StripLeft removes a prefix, and that prefix is white space. */
  lemma {:induction false} StripLeftSuffix(s: string)
    ensures StripLeft(s) == s[|s| - |StripLeft(s)|..]
    ensures AllSpace(s[..|s| - |StripLeft(s)|])
  {
    if |s| > 0 && IsSpace(s[0]) {
      var r := StripLeft(s[1..]);
      StripLeftSuffix(s[1..]);
      assert s[1..][|s[1..]| - |r|..] == s[|s| - |r|..];
      assert s[1..][..|s[1..]| - |r|] == s[1..|s| - |r|];
    }
  }

  /** StripRight removes a suffix, and that suffix is white space. */
  lemma {:induction false} StripRightPrefix(s: string)
    ensures StripRight(s) == s[..|StripRight(s)|]
    ensures AllSpace(s[|StripRight(s)|..])
  {
    if |s| > 0 && IsSpace(s[|s| - 1]) {
      var t := s[..|s| - 1];
      var r := StripRight(t);
      StripRightPrefix(t);
      assert t[..|r|] == s[..|r|];
      assert s[|r|..] == t[|r|..] + [s[|s| - 1]];
      forall j | 0 <= j < |s[|r|..]| ensures IsSpace(s[|r|..][j]) {
        if j < |t[|r|..]| {
          assert s[|r|..][j] == t[|r|..][j];
        }
      }
    } else {
      assert s[|s|..] == [];
    }
  }

  lemma SuffixSlices(s: string, i: nat, n: nat)
    requires i + n <= |s|
    ensures s[i..][..n] == s[i..i + n]
    ensures s[i..][n..] == s[i + n..]
  {
  }

  /** What strip removes is white space, from the two ends only. */
  lemma StripRemovesOnlySpace(s: string)
    ensures exists i :: 0 <= i <= |s| - |Strip(s)| && Strip(s) == s[i..i + |Strip(s)|]
              && AllSpace(s[..i]) && AllSpace(s[i + |Strip(s)|..])
  {
    var l := StripLeft(s);
    var r := StripRight(l);
    var i := |s| - |l|;
    StripLeftSuffix(s);
    StripRightPrefix(l);
    SuffixSlices(s, i, |r|);
    assert Strip(s) == r;
  }

  /** Strip of every piece, in order: `[p.strip() for p in ps]`. */
  function StripAll(ps: seq<string>): (r: seq<string>)
    ensures |r| == |ps|
    ensures forall i :: 0 <= i < |ps| ==> r[i] == Strip(ps[i])
  {
    if ps == [] then [] else [Strip(ps[0])] + StripAll(ps[1..])
  }

  /** A string that does not start with white space keeps its first
      character under `strip`. */
  lemma StripKeepsFirst(s: string)
    requires |s| > 0 && !IsSpace(s[0])
    ensures |Strip(s)| > 0 && Strip(s)[0] == s[0]
  {
    assert StripLeft(s) == s;
    StripRightPrefix(s);
  }

  lemma {:induction false} StripLeftPadded(w: string, x: string)
    requires AllSpace(w)
    requires x == [] || !IsSpace(x[0])
    ensures StripLeft(w + x) == x
  {
    if w != [] {
      assert (w + x)[1..] == w[1..] + x;
      StripLeftPadded(w[1..], x);
    }
  }

  /** White space in front of a trimmed string is exactly what `strip`
      removes. */
  lemma StripPadded(w: string, x: string)
    requires AllSpace(w) && Trimmed(x)
    ensures Strip(w + x) == x
  {
    StripLeftPadded(w, x);
  }

  /** A no-break space in front of an entry is white space to `strip`. */
  lemma StripNoBreakSpace()
    ensures Strip("\U{A0}Test:5") == "Test:5"
  {
    assert "\U{A0}Test:5" == "\U{A0}" + "Test:5";
    StripPadded("\U{A0}", "Test:5");
  }

  // ---------------------------------------------------------------------
  // str.split(",")

  /** `s.split(",")`: the pieces between commas, at least one of them
      ("" splits into [""]). */
  function Split(s: string): (r: seq<string>)
    ensures |r| >= 1
  {
    if s == [] then [""]
    else
      var rest := Split(s[1..]);
      if s[0] == ',' then [""] + rest else [[s[0]] + rest[0]] + rest[1..]
  }

  /** `sep.join(xs)`. */
  function Join(sep: string, xs: seq<string>): string
  {
    if |xs| == 0 then "" else if |xs| == 1 then xs[0] else xs[0] + sep + Join(sep, xs[1..])
  }

  /** A character in neither the separator nor any entry is not in the join. */
  lemma {:induction false} JoinAvoids(c: char, sep: string, xs: seq<string>)
    requires c !in sep
    requires forall i :: 0 <= i < |xs| ==> c !in xs[i]
    ensures c !in Join(sep, xs)
  {
    if |xs| > 1 {
      JoinAvoids(c, sep, xs[1..]);
    }
  }

  lemma {:induction false} SplitNoComma(s: string)
    ensures forall i :: 0 <= i < |Split(s)| ==> ',' !in Split(s)[i]
  {
    if s != [] {
      SplitNoComma(s[1..]);
    }
  }

  /** Splitting on "," and joining with "," gives back the string. */
  lemma {:induction false} JoinSplit(s: string)
    ensures Join(",", Split(s)) == s
  {
    if s != [] {
      var rest := Split(s[1..]);
      JoinSplit(s[1..]);
      if s[0] == ',' {
        assert ([""] + rest)[1..] == rest;
      } else {
        var r := [[s[0]] + rest[0]] + rest[1..];
        if |rest| > 1 {
          assert r[1..] == rest[1..];
          assert Join(",", rest) == rest[0] + "," + Join(",", rest[1..]);
        }
      }
    }
  }

  /** A comma-free prefix stays in the first piece. */
  lemma {:induction false} SplitPrefix(a: string, t: string)
    requires ',' !in a
    ensures Split(a + t) == [a + Split(t)[0]] + Split(t)[1..]
  {
    if a != [] {
      assert (a + t)[0] == a[0] && (a + t)[1..] == a[1..] + t;
      SplitPrefix(a[1..], t);
      var r := Split(a[1..] + t);
      assert r[0] == a[1..] + Split(t)[0] && r[1..] == Split(t)[1..];
      assert Split(a + t) == [[a[0]] + r[0]] + r[1..];
      assert [a[0]] + (a[1..] + Split(t)[0]) == a + Split(t)[0];
    } else {
      assert a + t == t;
      assert a + Split(t)[0] == Split(t)[0];
      assert [Split(t)[0]] + Split(t)[1..] == Split(t);
    }
  }

  lemma SplitComma(a: string, t: string)
    requires ',' !in a
    ensures Split(a + "," + t) == [a] + Split(t)
  {
    var u := "," + t;
    assert u[0] == ',' && u[1..] == t;
    assert Split(u) == [""] + Split(t);
    SplitPrefix(a, u);
    assert a + "," + t == a + u;
    assert a + Split(u)[0] == a;
    assert Split(u)[1..] == Split(t);
  }

  /** Joining comma-free pieces with "," and splitting on "," gives back the
      pieces. */
  lemma {:induction false} SplitJoin(xs: seq<string>)
    requires |xs| >= 1
    requires forall i :: 0 <= i < |xs| ==> ',' !in xs[i]
    ensures Split(Join(",", xs)) == xs
  {
    if |xs| == 1 {
      SplitPrefix(xs[0], "");
      assert xs[0] + "" == xs[0];
    } else {
      SplitJoin(xs[1..]);
      SplitComma(xs[0], Join(",", xs[1..]));
      assert [xs[0]] + xs[1..] == xs;
    }
  }

  lemma SplitStripOne(p: string, x: string)
    requires AllSpace(p) && ',' !in x && Trimmed(x)
    ensures StripAll(Split(p + x)) == [x]
  {
    SpaceNoComma(p);
    StripPadded(p, x);
    SplitPrefix(p + x, "");
    assert p + x + "" == p + x;
  }

  lemma JoinStep(p: string, xs: seq<string>)
    requires |xs| >= 2
    ensures p + Join(", ", xs) == (p + xs[0]) + "," + (" " + Join(", ", xs[1..]))
  {
  }

  lemma SpaceNoComma(p: string)
    requires AllSpace(p)
    ensures ',' !in p
  {
  }

  /** The round trip the validators rely on: entries without commas and
      without surrounding white space, joined with ", " behind a
      white-space prefix, split on "," and stripped piece by piece, come
      back exactly. */
  lemma {:induction false} SplitStripJoin(p: string, xs: seq<string>)
    requires AllSpace(p)
    requires |xs| >= 1
    requires forall i :: 0 <= i < |xs| ==> ',' !in xs[i] && Trimmed(xs[i])
    ensures StripAll(Split(p + Join(", ", xs))) == xs
    decreases |xs|
  {
    if |xs| == 1 {
      SplitStripOne(p, xs[0]);
    } else {
      SpaceNoComma(p);
      StripPadded(p, xs[0]);
      var u := " " + Join(", ", xs[1..]);
      JoinStep(p, xs);
      SplitComma(p + xs[0], u);
      assert Split(p + Join(", ", xs)) == [p + xs[0]] + Split(u);
      SplitStripJoin(" ", xs[1..]);
      StripAllCons(p + xs[0], Split(u));
      calc {
        StripAll(Split(p + Join(", ", xs)));
        StripAll([p + xs[0]] + Split(u));
        [Strip(p + xs[0])] + StripAll(Split(u));
        [xs[0]] + xs[1..];
        xs;
      }
    }
  }

  // ---------------------------------------------------------------------
  // Code-point order of str and sorted()

  /** `a < b` on Python strings: lexicographic on code points, a proper
      prefix first. */
  predicate Less(a: string, b: string)
  {
    if b == [] then false
    else if a == [] then true
    else if a[0] != b[0] then a[0] < b[0]
    else Less(a[1..], b[1..])
  }

  lemma StripAllCons(a: string, ps: seq<string>)
    ensures StripAll([a] + ps) == [Strip(a)] + StripAll(ps)
  {
    assert ([a] + ps)[1..] == ps;
  }

  lemma {:induction false} LessIrreflexive(a: string)
    ensures !Less(a, a)
  {
    if a != [] {
      LessIrreflexive(a[1..]);
    }
  }

  lemma {:induction false} LessAsymmetric(a: string, b: string)
    ensures Less(a, b) ==> !Less(b, a)
  {
    if a != [] && b != [] && a[0] == b[0] {
      LessAsymmetric(a[1..], b[1..]);
    }
  }

  lemma {:induction false} LessTransitive(a: string, b: string, c: string)
    requires Less(a, b) && Less(b, c)
    ensures Less(a, c)
  {
    if a != [] && a[0] == b[0] && b[0] == c[0] {
      LessTransitive(a[1..], b[1..], c[1..]);
    }
  }

  lemma {:induction false} LessTotal(a: string, b: string)
    requires a != b
    ensures Less(a, b) || Less(b, a)
  {
    if a != [] && b != [] && a[0] == b[0] {
      assert a == [a[0]] + a[1..] && b == [b[0]] + b[1..];
      LessTotal(a[1..], b[1..]);
    }
  }

  /** `m` is the least element of `s`. */
  predicate IsLeast(m: string, s: set<string>)
  {
    m in s && forall y :: y in s && y != m ==> Less(m, y)
  }

  /** Every non-empty finite set of strings has a least element. */
  lemma {:induction false} LeastExists(s: set<string>)
    requires s != {}
    ensures exists m :: IsLeast(m, s)
    decreases |s|
  {
    var x :| x in s;
    if s == {x} {
      assert IsLeast(x, s);
    } else {
      LeastExists(s - {x});
      var m :| IsLeast(m, s - {x});
      if Less(m, x) {
        forall y | y in s && y != m ensures Less(m, y) {
          if y != x {
            assert y in s - {x};
          }
        }
        assert IsLeast(m, s);
      } else {
        LessTotal(m, x);
        forall y | y in s && y != x
          ensures Less(x, y)
        {
          if y != m {
            assert y in s - {x};
            LessTransitive(x, m, y);
          }
        }
        assert IsLeast(x, s);
      }
    }
  }

  function Least(s: set<string>): (m: string)
    requires s != {}
    ensures m in s && forall y :: y in s && y != m ==> Less(m, y)
  {
    LeastExists(s);
    forall a, b | Less(a, b) ensures !Less(b, a) {
      LessAsymmetric(a, b);
    }
    var m :| IsLeast(m, s);
    m
  }

  predicate StrictlyIncreasing(r: seq<string>)
  {
    forall i, j :: 0 <= i < j < |r| ==> Less(r[i], r[j])
  }

  /** `sorted(s)` for a set of strings: its elements, each once, in
      increasing code-point order. */
  function Sorted(s: set<string>): (r: seq<string>)
    ensures forall x :: x in r <==> x in s
    ensures |r| == |s|
    ensures StrictlyIncreasing(r)
    decreases |s|
  {
    if s == {} then []
    else
      var m := Least(s);
      var rest := Sorted(s - {m});
      forall j | 0 <= j < |rest|
        ensures Less(m, rest[j])
      {
        assert rest[j] in rest;
      }
      [m] + rest
  }
}
