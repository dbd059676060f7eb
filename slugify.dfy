/**
  `slugify`: turns a title into the lower-case, hyphen-separated form used
  in URLs. The text is taken after canonical decomposition (NFD); the steps
  that follow drop combining marks, put a hyphen before every ASCII capital,
  lower-case, turn every run of other characters into one hyphen and trim
  hyphens from both ends.
 */
module Slugify {

  /** A combining diacritical mark, U+0300 to U+036F. */
  predicate IsMark(c: char)
  {
    0x300 <= c as int <= 0x36F
  }

  predicate IsCapital(c: char)
  {
    'A' <= c <= 'Z'
  }

  /** What survives the last replacement: `[a-z0-9]`. */
  predicate IsWordChar(c: char)
  {
    ('a' <= c <= 'z') || ('0' <= c <= '9')
  }

  /** Drops every combining mark. */
  function StripMarks(s: string): (r: string)
    ensures |r| <= |s|
    ensures forall i :: 0 <= i < |r| ==> !IsMark(r[i])
  {
    if s == [] then []
    else if IsMark(s[0]) then StripMarks(s[1..])
    else [s[0]] + StripMarks(s[1..])
  }

  /** The number of ASCII capitals in `s`. */
  function Capitals(s: string): nat
  {
    if s == [] then 0 else (if IsCapital(s[0]) then 1 else 0) + Capitals(s[1..])
  }

  /** Puts a hyphen before every ASCII capital: one hyphen more per capital, and nothing else changes length. */
  function SplitCapitals(s: string): (r: string)
    ensures |r| == |s| + Capitals(s)
  {
    if s == [] then []
    else if IsCapital(s[0]) then ['-', s[0]] + SplitCapitals(s[1..])
    else [s[0]] + SplitCapitals(s[1..])
  }

  function LowerChar(c: char): (l: char)
    ensures IsWordChar(l) <==> IsWordChar(c) || IsCapital(c)
  {
    if IsCapital(c) then (c as int + 32) as char else c
  }

  /**
    Lower case. Only ASCII letters are mapped: once text is decomposed, no
    other character has a lower case containing `[a-z0-9]`, and every such
    character becomes a hyphen in the next step whatever its lower case is.
   */
  function Lower(s: string): (r: string)
    ensures |r| == |s|
    ensures forall i :: 0 <= i < |s| ==> r[i] == LowerChar(s[i])
  {
    if s == [] then [] else [LowerChar(s[0])] + Lower(s[1..])
  }

  /** `s` without its leading run of characters outside `[a-z0-9]`. */
  function SkipRun(s: string): (r: string)
    ensures |r| <= |s|
    ensures r == [] || IsWordChar(r[0])
  {
    if s == [] || IsWordChar(s[0]) then s else SkipRun(s[1..])
  }

  /**
    Replaces every maximal run of characters outside `[a-z0-9]` by one
    hyphen: the text never grows, and only empty text becomes empty.
   */
  function Collapse(s: string): (r: string)
    ensures |r| <= |s|
    ensures r == [] <==> s == []
    decreases |s|
  {
    if s == [] then []
    else if IsWordChar(s[0]) then [s[0]] + Collapse(s[1..])
    else ['-'] + Collapse(SkipRun(s))
  }

  /** Drops the leading hyphens: what is left is the rest of `s`, and does not start with one. */
  function TrimStart(s: string): (r: string)
    ensures |r| <= |s| && r == s[|s| - |r|..]
    ensures forall i :: 0 <= i < |s| - |r| ==> s[i] == '-'
    ensures r == [] || r[0] != '-'
  {
    if s != [] && s[0] == '-' then TrimStart(s[1..]) else s
  }

  /** Drops the trailing hyphens: what is left is the start of `s`, and does not end with one. */
  function TrimEnd(s: string): (r: string)
    ensures |r| <= |s| && r == s[..|r|]
    ensures forall i :: |r| <= i < |s| ==> s[i] == '-'
    ensures r == [] || r[|r| - 1] != '-'
  {
    if s != [] && s[|s| - 1] == '-' then TrimEnd(s[..|s| - 1]) else s
  }

  /** `slugify` of the decomposed text `s`. */
  function Slugify(s: string): (r: string)
    ensures IsSlug(r)
  {
    var collapsed := Collapse(Lower(SplitCapitals(StripMarks(s))));
    CollapseShape(Lower(SplitCapitals(StripMarks(s))));
    TrimShape(collapsed);
    TrimEnd(TrimStart(collapsed))
  }

  /* ---------------- The output language ---------------- */

  predicate SlugChar(c: char)
  {
    IsWordChar(c) || c == '-'
  }

  /** Lower-case letters, digits and single hyphens between them. */
  predicate IsSlug(t: string)
  {
    (forall i :: 0 <= i < |t| ==> SlugChar(t[i]))
    && (t != [] ==> t[0] != '-' && t[|t| - 1] != '-')
    && (forall i :: 0 <= i < |t| - 1 && t[i] == '-' ==> t[i + 1] != '-')
  }

  /** `[a-z0-9-]` only, and a hyphen is never followed by another. */
  predicate Collapsed(t: string)
  {
    (forall i :: 0 <= i < |t| ==> SlugChar(t[i]))
    && (forall i :: 0 <= i < |t| - 1 && t[i] == '-' ==> IsWordChar(t[i + 1]))
  }

  lemma {:induction false} CollapseShape(s: string)
    ensures Collapsed(Collapse(s))
    decreases |s|
  {
    if s == [] {
    } else if IsWordChar(s[0]) {
      CollapseShape(s[1..]);
    } else {
      CollapseShape(SkipRun(s));
      var rest := Collapse(SkipRun(s));
      assert rest == [] || IsWordChar(rest[0]) by {
        if SkipRun(s) != [] {
          assert IsWordChar(SkipRun(s)[0]);
        }
      }
    }
  }

  lemma {:induction false} TrimStartShape(t: string)
    requires Collapsed(t)
    ensures Collapsed(TrimStart(t))
    ensures TrimStart(t) == [] || TrimStart(t)[0] != '-'
    ensures TrimStart(t) == t || (t != [] && TrimStart(t) == t[1..])
  {
    if t != [] && t[0] == '-' {
      assert Collapsed(t[1..]);
      if |t| > 1 {
        assert IsWordChar(t[1]);
      }
    }
  }

  lemma {:induction false} TrimEndShape(t: string)
    requires Collapsed(t) && (t == [] || t[0] != '-')
    ensures IsSlug(TrimEnd(t))
  {
    if t != [] && t[|t| - 1] == '-' {
      var u := t[..|t| - 1];
      assert Collapsed(u);
      if |t| >= 2 {
        assert !IsWordChar(t[|t| - 1]);
        assert u[|u| - 1] != '-';
      }
      assert TrimEnd(t) == TrimEnd(u);
      assert TrimEnd(u) == u;
    }
  }

  lemma TrimShape(t: string)
    requires Collapsed(t)
    ensures IsSlug(TrimEnd(TrimStart(t)))
  {
    TrimStartShape(t);
    TrimEndShape(TrimStart(t));
  }

  /* ---------------- Fixed points and idempotence ---------------- */

  lemma {:induction false} SlugSteps(t: string)
    requires forall i :: 0 <= i < |t| ==> SlugChar(t[i])
    ensures StripMarks(t) == t && SplitCapitals(t) == t && Lower(t) == t
  {
    if t != [] {
      SlugSteps(t[1..]);
    }
  }

  lemma {:induction false} CollapseSlug(t: string)
    requires Collapsed(t)
    ensures Collapse(t) == t
    decreases |t|
  {
    if t != [] {
      assert Collapsed(t[1..]);
      if IsWordChar(t[0]) {
        CollapseSlug(t[1..]);
      } else {
        assert SkipRun(t) == t[1..] by {
          if |t| > 1 {
            assert IsWordChar(t[1]);
          }
        }
        CollapseSlug(t[1..]);
      }
    }
  }

  /** The slugs are exactly the texts `slugify` leaves unchanged. */
  lemma FixedPoints(t: string)
    ensures Slugify(t) == t <==> IsSlug(t)
  {
    if IsSlug(t) {
      SlugSteps(t);
      assert Collapsed(t) by {
        forall i | 0 <= i < |t| - 1 && t[i] == '-'
          ensures IsWordChar(t[i + 1])
        {
          assert SlugChar(t[i + 1]);
        }
      }
      CollapseSlug(t);
    }
  }

  /** `slugify` of a slug is that slug. */
  lemma Idempotent(s: string)
    ensures Slugify(Slugify(s)) == Slugify(s)
  {
    FixedPoints(Slugify(s));
  }

  /* ---------------- Capitals and marks ---------------- */

  predicate LowerWord(w: string)
  {
    forall i :: 0 <= i < |w| ==> IsWordChar(w[i])
  }

  lemma {:induction false} WordSteps(w: string)
    requires LowerWord(w)
    ensures StripMarks(w) == w && SplitCapitals(w) == w && Lower(w) == w && Collapse(w) == w
  {
    if w != [] {
      WordSteps(w[1..]);
    }
  }

  lemma {:induction false} StripAppend(a: string, b: string)
    ensures StripMarks(a + b) == StripMarks(a) + StripMarks(b)
  {
    if a == [] {
      assert a + b == b;
    } else {
      assert (a + b)[0] == a[0] && (a + b)[1..] == a[1..] + b;
      StripAppend(a[1..], b);
    }
  }

  lemma {:induction false} SplitAppend(a: string, b: string)
    ensures SplitCapitals(a + b) == SplitCapitals(a) + SplitCapitals(b)
  {
    if a == [] {
      assert a + b == b;
    } else {
      assert (a + b)[0] == a[0] && (a + b)[1..] == a[1..] + b;
      SplitAppend(a[1..], b);
    }
  }

  lemma LowerAppend(a: string, b: string)
    ensures Lower(a + b) == Lower(a) + Lower(b)
  {
  }

  /** A word followed by a capital and more lower-case letters becomes two words: "HelloWorld" gives "hello-world". */
  lemma CapitalStartsWord(x: string, c: char, y: string)
    requires LowerWord(x) && x != [] && IsCapital(c) && LowerWord(y)
    ensures Slugify(x + [c] + y) == x + ['-', LowerChar(c)] + y
  {
    CapitalPrepared(x, c, y);
    CollapseWordDashWord(x, LowerChar(c), y);
    var r := x + ['-', LowerChar(c)] + y;
    assert r[0] == x[0];
    assert TrimStart(r) == r;
    assert r[|r| - 1] != '-' by {
      if y == [] {
        assert r[|r| - 1] == LowerChar(c);
      } else {
        assert r[|r| - 1] == y[|y| - 1];
      }
    }
    assert TrimEnd(r) == r;
  }

  /** The steps before `Collapse` on a word, a capital and a word. */
  lemma CapitalPrepared(x: string, c: char, y: string)
    requires LowerWord(x) && IsCapital(c) && LowerWord(y)
    ensures Lower(SplitCapitals(StripMarks(x + [c] + y))) == x + ['-', LowerChar(c)] + y
  {
    CapitalStripped(x, c, y);
    CapitalSplit(x, c, y);
    CapitalLowered(x, c, y);
  }

  lemma CapitalStripped(x: string, c: char, y: string)
    requires LowerWord(x) && IsCapital(c) && LowerWord(y)
    ensures StripMarks(x + [c] + y) == x + [c] + y
  {
    WordSteps(x);
    WordSteps(y);
    StripAppend(x + [c], y);
    StripAppend(x, [c]);
    assert StripMarks([c]) == [c];
  }

  lemma CapitalSplit(x: string, c: char, y: string)
    requires LowerWord(x) && IsCapital(c) && LowerWord(y)
    ensures SplitCapitals(x + [c] + y) == x + ['-', c] + y
  {
    WordSteps(x);
    WordSteps(y);
    SplitAppend(x + [c], y);
    SplitAppend(x, [c]);
    assert SplitCapitals([c]) == ['-', c];
  }

  lemma CapitalLowered(x: string, c: char, y: string)
    requires LowerWord(x) && IsCapital(c) && LowerWord(y)
    ensures Lower(x + ['-', c] + y) == x + ['-', LowerChar(c)] + y
  {
    var t := x + ['-', c] + y;
    var r := x + ['-', LowerChar(c)] + y;
    assert |Lower(t)| == |r|;
    forall i | 0 <= i < |r|
      ensures Lower(t)[i] == r[i]
    {
      if i < |x| {
        assert t[i] == x[i] && r[i] == x[i];
      } else if 2 + |x| <= i {
        assert t[i] == y[i - 2 - |x|] && r[i] == y[i - 2 - |x|];
      }
    }
  }

  lemma {:induction false} CollapseWordDashWord(x: string, l: char, y: string)
    requires LowerWord(x) && IsWordChar(l) && LowerWord(y)
    ensures Collapse(x + ['-', l] + y) == x + ['-', l] + y
    decreases |x|
  {
    var t := x + ['-', l] + y;
    if x == [] {
      assert SkipRun(t) == [l] + y;
      WordSteps([l] + y);
    } else {
      assert t[1..] == x[1..] + ['-', l] + y;
      CollapseWordDashWord(x[1..], l, y);
    }
  }

  /** Two capitalised words become two lower-case words with a hyphen between: "HelloWorld" gives "hello-world". */
  lemma TitleWords(c: char, x: string, d: char, y: string)
    requires IsCapital(c) && LowerWord(x) && IsCapital(d) && LowerWord(y)
    ensures Slugify([c] + x + [d] + y) == [LowerChar(c)] + x + ['-', LowerChar(d)] + y
  {
    var word := [LowerChar(c)] + x;
    var r := word + ['-', LowerChar(d)] + y;
    TitlePrepared(c, x, d, y);
    assert LowerWord(word);
    CollapseWordDashWord(word, LowerChar(d), y);
    assert SkipRun(['-'] + r) == r;
    assert Collapse(['-'] + r) == ['-'] + r;
    assert TrimStart(['-'] + r) == r;
    assert TrimEnd(r) == r;
  }

  lemma TitlePrepared(c: char, x: string, d: char, y: string)
    requires IsCapital(c) && LowerWord(x) && IsCapital(d) && LowerWord(y)
    ensures Lower(SplitCapitals(StripMarks([c] + x + [d] + y)))
      == ['-'] + ([LowerChar(c)] + x + ['-', LowerChar(d)] + y)
  {
    TitleStripped(c, x, d, y);
    TitleSplit(c, x, d, y);
    TitleLowered(c, x, d, y);
  }

  lemma TitleStripped(c: char, x: string, d: char, y: string)
    requires IsCapital(c) && LowerWord(x) && IsCapital(d) && LowerWord(y)
    ensures StripMarks([c] + x + [d] + y) == [c] + x + [d] + y
  {
    WordSteps(x);
    WordSteps(y);
    StripAppend([c] + x + [d], y);
    StripAppend([c] + x, [d]);
    StripAppend([c], x);
    assert StripMarks([c]) == [c] && StripMarks([d]) == [d];
  }

  lemma TitleSplit(c: char, x: string, d: char, y: string)
    requires IsCapital(c) && LowerWord(x) && IsCapital(d) && LowerWord(y)
    ensures SplitCapitals([c] + x + [d] + y) == ['-', c] + x + ['-', d] + y
  {
    WordSteps(x);
    WordSteps(y);
    SplitAppend([c] + x + [d], y);
    SplitAppend([c] + x, [d]);
    SplitAppend([c], x);
    assert SplitCapitals([c]) == ['-', c] && SplitCapitals([d]) == ['-', d];
  }

  lemma TitleLowered(c: char, x: string, d: char, y: string)
    requires IsCapital(c) && LowerWord(x) && IsCapital(d) && LowerWord(y)
    ensures Lower(['-', c] + x + ['-', d] + y) == ['-'] + ([LowerChar(c)] + x + ['-', LowerChar(d)] + y)
  {
    var t := ['-', c] + x + ['-', d] + y;
    var r := ['-'] + ([LowerChar(c)] + x + ['-', LowerChar(d)] + y);
    assert |Lower(t)| == |r|;
    forall i | 0 <= i < |r|
      ensures Lower(t)[i] == r[i]
    {
      if 2 <= i < 2 + |x| {
        assert t[i] == x[i - 2] && r[i] == x[i - 2];
      } else if 4 + |x| <= i {
        assert t[i] == y[i - 4 - |x|] && r[i] == y[i - 4 - |x|];
      }
    }
  }

  /** A combining mark anywhere in the decomposed text leaves the slug unchanged: "crème" and "creme" give the same slug. */
  lemma MarksIgnored(x: string, m: char, y: string)
    requires IsMark(m)
    ensures Slugify(x + [m] + y) == Slugify(x + y)
  {
    StripAppend(x + [m], y);
    StripAppend(x, [m]);
    StripAppend(x, y);
    assert StripMarks([m]) == [];
    assert StripMarks(x) + [] == StripMarks(x);
    assert StripMarks(x + [m] + y) == StripMarks(x + y);
  }
}
