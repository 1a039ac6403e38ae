/**
 The string primitives the license database leans on: Python's notion of
 whitespace, the clean-up `re.sub(r'\s\s*', ' ', s).strip()` that ends every
 rewrite pass, and the substring test `q in v`.
 */
module Text {

  /** `str.isspace()`, which is also what `\s` matches in a `str` pattern. */
  predicate IsSpace(c: char) {
    var k := c as int;
    (9 <= k <= 13) || (28 <= k <= 32) || k == 0x85 || k == 0xA0 || k == 0x1680
    || (0x2000 <= k <= 0x200A) || k == 0x2028 || k == 0x2029 || k == 0x202F
    || k == 0x205F || k == 0x3000
  }

  /** Removes the leading whitespace of `s` (the left half of `str.strip()`). */
  function DropSpaces(s: string): (r: string)
    ensures |r| <= |s|
    ensures r == [] || !IsSpace(r[0])
  {
    if s != [] && IsSpace(s[0]) then DropSpaces(s[1..]) else s
  }

  /** What is left after the leading whitespace is a suffix of the text. */
  lemma {:induction false} DropSpacesSuffix(s: string)
    ensures DropSpaces(s) == s[|s| - |DropSpaces(s)|..]
  {
    if s != [] && IsSpace(s[0]) {
      DropSpacesSuffix(s[1..]);
      assert s[1..][|s| - 1 - |DropSpaces(s[1..])|..] == s[|s| - |DropSpaces(s)|..];
    }
  }

  /** Removes the trailing whitespace of `s` (the right half of `str.strip()`). */
  function StripRight(s: string): (r: string)
    ensures |r| <= |s|
    ensures r == [] || !IsSpace(r[|r| - 1])
  {
    if s != [] && IsSpace(s[|s| - 1]) then StripRight(s[..|s| - 1]) else s
  }

  /** What is left after the trailing whitespace is a prefix of the text. */
  lemma {:induction false} StripRightPrefix(s: string)
    ensures StripRight(s) == s[..|StripRight(s)|]
  {
    if s != [] && IsSpace(s[|s| - 1]) {
      StripRightPrefix(s[..|s| - 1]);
      assert s[..|s| - 1][..|StripRight(s)|] == s[..|StripRight(s)|];
    }
  }

  /** `str.strip()`. */
  function Strip(s: string): (r: string)
    ensures r == [] || (!IsSpace(r[0]) && !IsSpace(r[|r| - 1]))
  {
    StripRightPrefix(DropSpaces(s));
    StripRight(DropSpaces(s))
  }

  /** Every character of `t` is whitespace. */
  predicate AllSpace(t: string) {
    forall i :: 0 <= i < |t| ==> IsSpace(t[i])
  }

  /** What `DropSpaces` removes is whitespace. */
  lemma {:induction false} DropSpacesRemovesSpaces(s: string)
    ensures |DropSpaces(s)| <= |s| && AllSpace(s[..|s| - |DropSpaces(s)|])
  {
    if s != [] && IsSpace(s[0]) {
      DropSpacesRemovesSpaces(s[1..]);
      var n := |s| - |DropSpaces(s)|;
      assert s[..n] == [s[0]] + s[1..][..n - 1];
    }
  }

  /** What `StripRight` removes is whitespace. */
  lemma {:induction false} StripRightRemovesSpaces(s: string)
    ensures |StripRight(s)| <= |s| && AllSpace(s[|StripRight(s)|..])
  {
    if s != [] && IsSpace(s[|s| - 1]) {
      var init := s[..|s| - 1];
      StripRightRemovesSpaces(init);
      assert s[|StripRight(s)|..] == init[|StripRight(init)|..] + [s[|s| - 1]];
    }
  }

  /** `str.strip()` removes whitespace at the two ends and nothing else. */
  lemma StripRemovesOnlyEnds(s: string)
    ensures exists a, b :: AllSpace(a) && AllSpace(b) && s == a + Strip(s) + b
  {
    var d := DropSpaces(s);
    DropSpacesSuffix(s);
    DropSpacesRemovesSpaces(s);
    StripRightPrefix(d);
    StripRightRemovesSpaces(d);
    var a := s[..|s| - |d|];
    var b := d[|StripRight(d)|..];
    assert s == a + d;
    assert d == StripRight(d) + b;
    assert s == a + Strip(s) + b;
  }

  /** Every whitespace character is a plain space, and no two whitespace characters are adjacent. */
  predicate SingleSpaced(t: string) {
    forall i :: 0 <= i < |t| && IsSpace(t[i]) ==> t[i] == ' ' && (i + 1 == |t| || !IsSpace(t[i + 1]))
  }

  /** What the clean-up promises: single-spaced, and no whitespace at either end. */
  predicate Normal(t: string) {
    SingleSpaced(t) && (t != [] ==> !IsSpace(t[0]) && !IsSpace(t[|t| - 1]))
  }

  /** `re.sub(r'\s\s*', ' ', s)`: every maximal run of whitespace becomes a single space. */
  function Squeeze(s: string): (r: string)
    decreases |s|
    ensures SingleSpaced(r)
    ensures s == [] <==> r == []
    ensures s != [] ==> (IsSpace(r[0]) <==> IsSpace(s[0]))
  {
    if s == [] then []
    else if IsSpace(s[0]) then [' '] + Squeeze(DropSpaces(s[1..]))
    else [s[0]] + Squeeze(s[1..])
  }

  lemma SingleSpacedSlice(t: string, a: nat, b: nat)
    requires a <= b <= |t| && SingleSpaced(t)
    ensures SingleSpaced(t[a..b])
  {
    var u := t[a..b];
    forall i | 0 <= i < |u| && IsSpace(u[i])
      ensures u[i] == ' ' && (i + 1 == |u| || !IsSpace(u[i + 1]))
    {
      assert u[i] == t[a + i];
      if i + 1 < |u| { assert u[i + 1] == t[a + i + 1]; }
    }
  }

  /** The whole clean-up at the end of a rewrite pass: `re.sub(r'\s\s*', ' ', s).strip()`. */
  function Collapse(s: string): (r: string)
    ensures Normal(r)
  {
    var q := Squeeze(s);
    var d := DropSpaces(q);
    DropSpacesSuffix(q);
    SingleSpacedSlice(q, |q| - |d|, |q|);
    var r := StripRight(d);
    StripRightPrefix(d);
    SingleSpacedSlice(d, 0, |r|);
    r
  }

  /** A single-spaced text is left alone by the run squeezing. */
  lemma {:induction false} SqueezeSingleSpaced(t: string)
    requires SingleSpaced(t)
    ensures Squeeze(t) == t
  {
    if t != [] {
      SingleSpacedSlice(t, 1, |t|);
      if IsSpace(t[0]) {
        assert t[0] == ' ';
        assert DropSpaces(t[1..]) == t[1..];
      }
      SqueezeSingleSpaced(t[1..]);
    }
  }

  /** The clean-up is exactly the identity on normal texts, and never yields anything else. */
  lemma CollapseFixpoint(s: string)
    ensures Collapse(s) == s <==> Normal(s)
  {
    if Normal(s) {
      SqueezeSingleSpaced(s);
      assert DropSpaces(s) == s;
      assert StripRight(s) == s;
    }
  }

  /** Running the clean-up twice is the same as running it once. */
  lemma CollapseIdempotent(s: string)
    ensures Collapse(Collapse(s)) == Collapse(s)
  {
    CollapseFixpoint(Collapse(s));
  }

  /** The non-whitespace characters of `s`, in order. */
  function NonSpace(s: string): string {
    if s == [] then [] else (if IsSpace(s[0]) then [] else [s[0]]) + NonSpace(s[1..])
  }

  lemma {:induction false} NonSpaceAppend(a: string, b: string)
    ensures NonSpace(a + b) == NonSpace(a) + NonSpace(b)
  {
    if a == [] {
      assert a + b == b;
    } else {
      assert (a + b)[0] == a[0];
      assert (a + b)[1..] == a[1..] + b;
      NonSpaceAppend(a[1..], b);
    }
  }

  lemma {:induction false} NonSpaceDropSpaces(s: string)
    ensures NonSpace(DropSpaces(s)) == NonSpace(s)
  {
    if s != [] && IsSpace(s[0]) { NonSpaceDropSpaces(s[1..]); }
  }

  lemma {:induction false} NonSpaceStripRight(s: string)
    ensures NonSpace(StripRight(s)) == NonSpace(s)
  {
    if s != [] && IsSpace(s[|s| - 1]) {
      var init := s[..|s| - 1];
      assert s == init + [s[|s| - 1]];
      NonSpaceAppend(init, [s[|s| - 1]]);
      NonSpaceStripRight(init);
    }
  }

  lemma {:induction false} NonSpaceSqueeze(s: string)
    ensures NonSpace(Squeeze(s)) == NonSpace(s)
    decreases |s|
  {
    if s != [] {
      if IsSpace(s[0]) {
        NonSpaceAppend([' '], Squeeze(DropSpaces(s[1..])));
        NonSpaceSqueeze(DropSpaces(s[1..]));
        NonSpaceDropSpaces(s[1..]);
      } else {
        NonSpaceAppend([s[0]], Squeeze(s[1..]));
        NonSpaceSqueeze(s[1..]);
      }
    }
  }

  /** The clean-up only touches whitespace: every other character survives, in order. */
  lemma CollapseKeepsText(s: string)
    ensures NonSpace(Collapse(s)) == NonSpace(s)
  {
    NonSpaceSqueeze(s);
    NonSpaceDropSpaces(Squeeze(s));
    NonSpaceStripRight(DropSpaces(Squeeze(s)));
  }

  /** The words of `s`: its maximal runs of non-whitespace characters, in order. */
  function Words(s: string): (r: seq<string>)
    ensures s != [] && !IsSpace(s[0]) ==> r != []
    decreases |s|
  {
    if s == [] then []
    else if IsSpace(s[0]) then Words(s[1..])
    else
      var rest := Words(s[1..]);
      if |s| > 1 && !IsSpace(s[1]) then [[s[0]] + rest[0]] + rest[1..]
      else [[s[0]]] + rest
  }

  lemma {:induction false} WordsDropSpaces(s: string)
    ensures Words(DropSpaces(s)) == Words(s)
  {
    if s != [] && IsSpace(s[0]) { WordsDropSpaces(s[1..]); }
  }

  /** Whitespace at the end of a text ends no word. */
  lemma {:induction false} WordsSnocSpace(t: string, c: char)
    requires IsSpace(c)
    ensures Words(t + [c]) == Words(t)
  {
    var u := t + [c];
    if t == [] {
      assert u[1..] == [];
    } else {
      assert u[0] == t[0] && u[1..] == t[1..] + [c];
      WordsSnocSpace(t[1..], c);
      if |t| > 1 { assert u[1] == t[1]; }
    }
  }

  lemma {:induction false} WordsStripRight(s: string)
    ensures Words(StripRight(s)) == Words(s)
  {
    if s != [] && IsSpace(s[|s| - 1]) {
      var init := s[..|s| - 1];
      assert s == init + [s[|s| - 1]];
      WordsSnocSpace(init, s[|s| - 1]);
      WordsStripRight(init);
    }
  }

  lemma {:induction false} WordsSqueeze(s: string)
    ensures Words(Squeeze(s)) == Words(s)
    decreases |s|
  {
    if s != [] {
      if IsSpace(s[0]) {
        var x := Squeeze(DropSpaces(s[1..]));
        assert ([' '] + x)[1..] == x;
        WordsSqueeze(DropSpaces(s[1..]));
        WordsDropSpaces(s[1..]);
      } else {
        var y := Squeeze(s[1..]);
        assert ([s[0]] + y)[0] == s[0] && ([s[0]] + y)[1..] == y;
        WordsSqueeze(s[1..]);
        if |s| > 1 { assert ([s[0]] + y)[1] == y[0]; }
      }
    }
  }

  /**
   The clean-up keeps the words: what it changes is only the whitespace
   between them, which becomes a single space.
   */
  lemma CollapseKeepsWords(s: string)
    ensures Words(Collapse(s)) == Words(s)
  {
    WordsSqueeze(s);
    WordsDropSpaces(Squeeze(s));
    WordsStripRight(DropSpaces(Squeeze(s)));
  }

  /** The words joined by single spaces. */
  function JoinWords(ws: seq<string>): string
    decreases |ws|
  {
    if ws == [] then [] else if |ws| == 1 then ws[0] else ws[0] + [' '] + JoinWords(ws[1..])
  }

  lemma NormalTail(t: string)
    requires Normal(t) && |t| > 1
    ensures !IsSpace(t[1]) ==> Normal(t[1..])
    ensures IsSpace(t[1]) ==> t[1] == ' ' && |t| > 2 && Normal(t[2..])
  {
    SingleSpacedSlice(t, 1, |t|);
    SingleSpacedSlice(t, 2, |t|);
  }

  lemma WordsConsSpace(c: char, v: string)
    requires !IsSpace(c) && v != [] && !IsSpace(v[0])
    ensures Words([c] + [' '] + v) == [[c]] + Words(v)
  {
    var t := [c] + [' '] + v;
    assert t[0] == c && t[1] == ' ' && t[1..] == [' '] + v && t[1..][1..] == v;
  }

  lemma WordsConsWord(c: char, u: string)
    requires !IsSpace(c) && u != [] && !IsSpace(u[0])
    ensures Words([c] + u) == [[c] + Words(u)[0]] + Words(u)[1..]
  {
    var t := [c] + u;
    assert t[0] == c && t[1] == u[0] && t[1..] == u;
  }

  lemma JoinWordsConsSpace(c: char, ws: seq<string>)
    requires ws != []
    ensures JoinWords([[c]] + ws) == [c] + [' '] + JoinWords(ws)
  {
    assert ([[c]] + ws)[1..] == ws;
  }

  lemma JoinWordsConsWord(c: char, ws: seq<string>)
    requires ws != []
    ensures JoinWords([[c] + ws[0]] + ws[1..]) == [c] + JoinWords(ws)
  {
    var vs := [[c] + ws[0]] + ws[1..];
    assert vs[0] == [c] + ws[0] && vs[1..] == ws[1..] && |vs| == |ws|;
    if |ws| > 1 {
      var x := JoinWords(ws[1..]);
      ConcatAssoc([c], ws[0], [' '] + x);
      assert ([c] + ws[0]) + [' '] + x == ([c] + ws[0]) + ([' '] + x);
      assert ws[0] + [' '] + x == ws[0] + ([' '] + x);
    }
  }

  lemma ConcatAssoc(a: string, b: string, c: string)
    ensures (a + b) + c == a + (b + c)
  {
  }

  /** A normal text is its words joined by single spaces. */
  lemma {:induction false} NormalIsJoinedWords(t: string)
    requires Normal(t)
    ensures JoinWords(Words(t)) == t
    decreases |t|
  {
    if |t| == 1 {
      assert t[1..] == [] && t == [t[0]];
      assert Words(t) == [[t[0]]] + Words(t[1..]);
    } else if |t| > 1 {
      NormalTail(t);
      var c := t[0];
      if IsSpace(t[1]) {
        var v := t[2..];
        assert t == [c] + [' '] + v;
        NormalIsJoinedWords(v);
        WordsConsSpace(c, v);
        JoinWordsConsSpace(c, Words(v));
      } else {
        var u := t[1..];
        assert t == [c] + u;
        NormalIsJoinedWords(u);
        WordsConsWord(c, u);
        JoinWordsConsWord(c, Words(u));
      }
    }
  }

  /**
   The clean-up is exactly the words of the text joined by single spaces; in
   particular two texts with the same words collapse to the same result.
   */
  lemma CollapseIsJoinedWords(s: string)
    ensures Collapse(s) == JoinWords(Words(s))
  {
    CollapseKeepsWords(s);
    NormalIsJoinedWords(Collapse(s));
  }

  /** `q` occurs in `v` starting at index `i`. */
  predicate OccursAt(q: string, v: string, i: nat) {
    i + |q| <= |v| && v[i..i + |q|] == q
  }

  /** Python's `q in v` on strings. */
  predicate IsSubstring(q: string, v: string) {
    exists i :: 0 <= i <= |v| && OccursAt(q, v, i)
  }
}
