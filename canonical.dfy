/**
 * The canonicalisation shared by the dataset builder and the serving path:
 * transliteration to ASCII (kept abstract), the collapse of separator runs
 * performed by `re.sub(r"[\s_()\-,:;%&]+", " ", ...)`, and the rewrite of
 * `!` and `?` to `.` performed by `re.sub("[!?]", ".", ...)`.
 */
module Canonical {
  import opened Chars

  /** `unidecode`: a transliteration whose table is not modelled. */
  type Transliterator = string -> string

  /** What `unidecode` is relied on for: it leaves ASCII text as it is. */
  ghost predicate IdentityOnAscii(u: Transliterator) {
    forall s :: AllAscii(s) ==> u(s) == s
  }

  /** Drops the maximal run of separators at the front of `s`. */
  function SkipSeparators(s: string): (r: string)
    ensures |r| <= |s| && r == s[|s| - |r|..]
    ensures r == [] || !IsSeparator(r[0])
    ensures forall i :: 0 <= i < |s| - |r| ==> IsSeparator(s[i])
  {
    if s != [] && IsSeparator(s[0]) then SkipSeparators(s[1..]) else s
  }

  /** The shape the collapse leaves: the only separator is ' ', never twice in a row. */
  predicate Collapsed(s: string) {
    (forall i :: 0 <= i < |s| && IsSeparator(s[i]) ==> s[i] == ' ')
    && (forall i :: 0 <= i < |s| - 1 && s[i] == ' ' ==> s[i + 1] != ' ')
  }

  /** Each maximal run of separators becomes one space; everything else is kept. */
  function Collapse(s: string): (r: string)
    ensures |r| <= |s|
    ensures r == [] <==> s == []
    ensures r != [] ==> (r[0] == ' ' <==> IsSeparator(s[0]))
    ensures Collapsed(r)
    ensures AllAscii(s) ==> AllAscii(r)
    decreases |s|
  {
    if s == [] then []
    else if IsSeparator(s[0]) then " " + Collapse(SkipSeparators(s[1..]))
    else [s[0]] + Collapse(s[1..])
  }

  /** Every `!` and every `?` becomes `.`, one character for one. */
  function ReplaceMarks(s: string): (r: string)
    ensures |r| == |s|
    ensures forall i :: 0 <= i < |r| ==> !IsMark(r[i])
    ensures forall i :: 0 <= i < |s| && IsMark(s[i]) ==> r[i] == '.'
    ensures forall i :: 0 <= i < |s| && !IsMark(s[i]) ==> r[i] == s[i]
  {
    seq(|s|, i requires 0 <= i < |s| => if IsMark(s[i]) then '.' else s[i])
  }

  /** A single run of separators collapses to exactly one space. */
  lemma CollapseOfRun(run: string)
    requires run != [] && forall i :: 0 <= i < |run| ==> IsSeparator(run[i])
    ensures Collapse(run) == " "
  {
    assert SkipSeparators(run[1..]) == [];
  }

  lemma {:induction false} SkipSeparatorsAppend(a: string, b: string)
    requires b != [] && !IsSeparator(b[0])
    ensures SkipSeparators(a + b) == SkipSeparators(a) + b
    decreases |a|
  {
    if a == [] {
      assert a + b == b;
    } else if IsSeparator(a[0]) {
      assert (a + b)[1..] == a[1..] + b;
      SkipSeparatorsAppend(a[1..], b);
    } else {
      assert (a + b)[0] == a[0];
    }
  }

  /**
   * A character outside the separator class splits the collapse: runs never
   * reach across it. With CollapseOfRun this determines Collapse on every
   * string, so it is the regular-expression substitution.
   */
  lemma {:induction false} CollapseAroundKept(a: string, c: char, b: string)
    requires !IsSeparator(c)
    ensures Collapse(a + [c] + b) == Collapse(a) + [c] + Collapse(b)
    decreases |a|
  {
    var cb := [c] + b;
    ConcatAssoc(a, [c], b);
    if a == [] {
      assert a + cb == cb;
      CollapseUnfoldKept(cb);
      assert cb[1..] == b;
    } else {
      var rest := a[1..];
      assert (a + cb)[0] == a[0];
      assert (a + cb)[1..] == rest + cb;
      ConcatAssoc(rest, [c], b);
      if IsSeparator(a[0]) {
        var t := SkipSeparators(rest);
        SkipSeparatorsAppend(rest, cb);
        ConcatAssoc(t, [c], b);
        CollapseAroundKept(t, c, b);
        var ct, cbb := Collapse(t), Collapse(b);
        calc {
          Collapse(a + cb);
          { CollapseUnfoldSeparator(a + cb); }
          " " + Collapse(t + cb);
          " " + (ct + [c] + cbb);
          { ConcatAssoc(" ", ct + [c], cbb); ConcatAssoc(" ", ct, [c]); }
          " " + ct + [c] + cbb;
          { CollapseUnfoldSeparator(a); }
          Collapse(a) + [c] + cbb;
        }
      } else {
        CollapseAroundKept(rest, c, b);
        var cr, cbb := Collapse(rest), Collapse(b);
        calc {
          Collapse(a + cb);
          { CollapseUnfoldKept(a + cb); }
          [a[0]] + Collapse(rest + cb);
          [a[0]] + (cr + [c] + cbb);
          { ConcatAssoc([a[0]], cr + [c], cbb); ConcatAssoc([a[0]], cr, [c]); }
          [a[0]] + cr + [c] + cbb;
          { CollapseUnfoldKept(a); }
          Collapse(a) + [c] + cbb;
        }
      }
    }
  }

  lemma ConcatAssoc<T>(x: seq<T>, y: seq<T>, z: seq<T>)
    ensures x + (y + z) == x + y + z
  {
  }

  lemma CollapseUnfoldKept(s: string)
    requires s != [] && !IsSeparator(s[0])
    ensures Collapse(s) == [s[0]] + Collapse(s[1..])
  {
  }

  lemma CollapseUnfoldSeparator(s: string)
    requires s != [] && IsSeparator(s[0])
    ensures Collapse(s) == " " + Collapse(SkipSeparators(s[1..]))
  {
  }

  /** Text ending in a kept character collapses independently of what follows. */
  lemma CollapseAfterKept(x: string, y: string)
    requires x != [] && !IsSeparator(x[|x| - 1])
    ensures Collapse(x + y) == Collapse(x) + Collapse(y)
  {
    var init, c := x[..|x| - 1], x[|x| - 1];
    assert x == init + [c];
    assert Collapse(x) == Collapse(init) + [c] by {
      assert x == init + [c] + [];
      CollapseAroundKept(init, c, []);
    }
    CollapseAroundKept(init, c, y);
  }

  /** A leading run of separators becomes one space before the rest. */
  lemma CollapseRunThenKept(run: string, y: string)
    requires run != [] && forall i :: 0 <= i < |run| ==> IsSeparator(run[i])
    requires y != [] && !IsSeparator(y[0])
    ensures Collapse(run + y) == " " + Collapse(y)
  {
    var s, t := run + y, run[1..];
    assert s[0] == run[0];
    assert s[1..] == t + y;
    assert SkipSeparators(t) == [];
    calc {
      Collapse(s);
      { CollapseUnfoldSeparator(s); }
      " " + Collapse(SkipSeparators(t + y));
      { SkipSeparatorsAppend(t, y); assert SkipSeparators(t) + y == y; }
      " " + Collapse(y);
    }
  }

  /** Text already in collapsed shape is left unchanged. */
  lemma {:induction false} CollapseFixpoint(s: string)
    requires Collapsed(s)
    ensures Collapse(s) == s
    decreases |s|
  {
    if s != [] {
      assert Collapsed(s[1..]) by {
        forall i | 0 <= i < |s[1..]| - 1 && s[1..][i] == ' '
          ensures s[1..][i + 1] != ' '
        {
          assert s[i + 1] == ' ';
        }
      }
      if IsSeparator(s[0]) {
        assert s[0] == ' ';
        assert s[1..] == [] || !IsSeparator(s[1]);
        assert SkipSeparators(s[1..]) == s[1..];
      }
      CollapseFixpoint(s[1..]);
    }
  }

  /** Rewriting the marks keeps the collapsed shape: '.' is not a separator. */
  lemma ReplaceMarksKeepsCollapsed(s: string)
    requires Collapsed(s)
    ensures Collapsed(ReplaceMarks(s))
  {
    var r := ReplaceMarks(s);
    forall i | 0 <= i < |r| && IsSeparator(r[i]) ensures r[i] == ' ' {
      assert !IsMark(s[i]) && r[i] == s[i];
    }
    forall i | 0 <= i < |r| - 1 && r[i] == ' ' ensures r[i + 1] != ' ' {
      assert s[i] == ' ';
    }
  }

  lemma ReplaceMarksKeepsAscii(s: string)
    requires AllAscii(s)
    ensures AllAscii(ReplaceMarks(s))
  {
  }

  /** One period per mark: "vu!!" becomes "vu..", not "vu.". */
  lemma ReplaceMarksExample()
    ensures ReplaceMarks("deja vu!!") == "deja vu.."
  {
  }

  lemma ReplaceMarksIdempotent(s: string)
    ensures ReplaceMarks(ReplaceMarks(s)) == ReplaceMarks(s)
  {
  }

  /** The characters of `s` outside the separator class, in order. */
  function Kept(s: string): string
    decreases |s|
  {
    if s == [] then []
    else (if IsSeparator(s[0]) then [] else [s[0]]) + Kept(s[1..])
  }

  lemma {:induction false} KeptSkipSeparators(s: string)
    ensures Kept(SkipSeparators(s)) == Kept(s)
    decreases |s|
  {
    if s != [] && IsSeparator(s[0]) {
      KeptSkipSeparators(s[1..]);
    }
  }

  lemma KeptCons(c: char, t: string)
    ensures Kept([c] + t) == (if IsSeparator(c) then [] else [c]) + Kept(t)
  {
    assert ([c] + t)[1..] == t;
  }

  /** The collapse only ever removes or rewrites separators: every other character survives, in order. */
  lemma {:induction false} CollapseKeepsOthers(s: string)
    ensures Kept(Collapse(s)) == Kept(s)
    decreases |s|
  {
    if s != [] {
      assert s == [s[0]] + s[1..];
      KeptCons(s[0], s[1..]);
      if IsSeparator(s[0]) {
        var t := SkipSeparators(s[1..]);
        CollapseKeepsOthers(t);
        KeptSkipSeparators(s[1..]);
        CollapseUnfoldSeparator(s);
        KeptCons(' ', Collapse(t));
      } else {
        CollapseKeepsOthers(s[1..]);
        CollapseUnfoldKept(s);
        KeptCons(s[0], Collapse(s[1..]));
      }
    }
  }

  /** "ok!" has no separator and comes through unchanged. */
  lemma CollapseKeptExample(s: string)
    requires s == "ok!"
    ensures Collapse(s) == "ok!"
  {
    var t2 := s[2..];
    assert Collapse(t2) == "!" by {
      assert t2 == [] + ['!'] + [];
      CollapseAroundKept([], '!', []);
    }
    var t1 := s[1..];
    assert Collapse(t1) == "k!" by {
      assert t1 == [] + ['k'] + t2;
      CollapseAroundKept([], 'k', t2);
    }
    assert s == [] + ['o'] + t1;
    CollapseAroundKept([], 'o', t1);
  }

  /** Between two kept characters, the run ", " becomes one space: "a, b" is collapsed to "a b". */
  lemma CollapseRunExample(x: char, y: char)
    requires !IsSeparator(x) && !IsSeparator(y)
    ensures Collapse([x, ',', ' ', y]) == [x, ' ', y]
  {
    var s := [x, ',', ' ', y];
    var rest := s[3..];
    assert Collapse(rest) == [y] by {
      CollapseUnfoldKept(rest);
      assert rest[1..] == [];
    }
    assert Collapse(s[1..]) == [' ', y] by {
      var run := s[1..3];
      assert run[0] == ',' && run[1] == ' ' && IsSeparator(run[0]) && IsSeparator(run[1]);
      assert s[1..] == run + rest;
      CollapseRunThenKept(run, rest);
    }
    CollapseUnfoldKept(s);
  }
}
