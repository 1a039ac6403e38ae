/**
 The boundary pattern the rewriter builds for each needle,
 `( |\(|^|\)|\|)NEEDLE( |$|\)|\||&)`, with `[a-zA-Z]` as one more trailing
 alternative when letters are allowed, together with what `re.search` and
 `re.sub` do with it. The needle is escaped, so it matches literally.
 */
module Pattern {
  import opened Common

  /** The character alternatives of the leading group. */
  predicate IsLeadChar(c: char) {
    c == ' ' || c == '(' || c == ')' || c == '|'
  }

  predicate IsAsciiLetter(c: char) {
    ('a' <= c <= 'z') || ('A' <= c <= 'Z')
  }

  /** The character alternatives of the trailing group. */
  predicate IsTrailChar(c: char, allowLetter: bool) {
    c == ' ' || c == ')' || c == '|' || c == '&' || (allowLetter && IsAsciiLetter(c))
  }

  /** `$` without MULTILINE: at the end of the text, or just before a newline that ends it. */
  predicate AtEnd(s: string, q: nat) {
    q == |s| || (q + 1 == |s| && s[q] == '\n')
  }

  /** The text captured by the two groups of one match. */
  datatype Match = Match(lead: string, trail: string)

  /** The leading group can capture `lead` at `p`: `^` captures nothing, the others one character. */
  predicate LeadOk(s: string, p: nat, lead: string) {
    (lead == [] && p == 0) || (p < |s| && lead == [s[p]] && IsLeadChar(s[p]))
  }

  /** The trailing group can capture `trail` at `q`: `$` captures nothing, the others one character. */
  predicate TrailOk(s: string, q: nat, trail: string, allowLetter: bool) {
    (trail == [] && AtEnd(s, q)) || (q < |s| && trail == [s[q]] && IsTrailChar(s[q], allowLetter))
  }

  predicate NeedleAt(s: string, i: nat, needle: string) {
    i + |needle| <= |s| && s[i..i + |needle|] == needle
  }

  /** The pattern matches the text at `p` with these captures. */
  predicate IsMatch(s: string, p: nat, needle: string, allowLetter: bool, m: Match) {
    LeadOk(s, p, m.lead)
    && NeedleAt(s, p + |m.lead|, needle)
    && TrailOk(s, p + |m.lead| + |needle|, m.trail, allowLetter)
  }

  /** Where a match at `p` ends. */
  function End(p: nat, needle: string, m: Match): nat {
    p + |m.lead| + |needle| + |m.trail|
  }

  /** The trailing group at `q`; at most one of its alternatives can succeed there. */
  function TrailAt(s: string, q: nat, allowLetter: bool): (r: Option<string>)
    ensures r.Some? ==> q + |r.value| <= |s|
  {
    if q < |s| && s[q] == ' ' then Some([' '])
    else if AtEnd(s, q) then Some([])
    else if q < |s| && IsTrailChar(s[q], allowLetter) then Some([s[q]])
    else None
  }

  /** The needle followed by the trailing group, starting at `i`. */
  function BodyAt(s: string, i: nat, needle: string, allowLetter: bool): (r: Option<string>)
    ensures r.Some? ==> i + |needle| + |r.value| <= |s|
  {
    if NeedleAt(s, i, needle) then TrailAt(s, i + |needle|, allowLetter) else None
  }

  /** Exactly one capture of the trailing group succeeds at `q`, or none does, as `TrailAt` says. */
  lemma TrailAtCases(s: string, q: nat, allowLetter: bool, t: string)
    ensures TrailOk(s, q, t, allowLetter) <==> TrailAt(s, q, allowLetter) == Some(t)
  {
  }

  lemma BodyAtCases(s: string, i: nat, needle: string, allowLetter: bool, t: string)
    ensures (NeedleAt(s, i, needle) && TrailOk(s, i + |needle|, t, allowLetter)) <==> BodyAt(s, i, needle, allowLetter) == Some(t)
  {
    TrailAtCases(s, i + |needle|, allowLetter, t);
  }

  /** A match at `p` is `^` followed by the body at 0, or a leading character followed by the body after it. */
  lemma IsMatchCases(s: string, p: nat, needle: string, allowLetter: bool)
    ensures forall m :: IsMatch(s, p, needle, allowLetter, m) <==>
      ((m.lead == [] && p == 0 && BodyAt(s, 0, needle, allowLetter) == Some(m.trail))
       || (p < |s| && IsLeadChar(s[p]) && m.lead == [s[p]] && BodyAt(s, p + 1, needle, allowLetter) == Some(m.trail)))
  {
    forall m
      ensures IsMatch(s, p, needle, allowLetter, m) <==>
        ((m.lead == [] && p == 0 && BodyAt(s, 0, needle, allowLetter) == Some(m.trail))
         || (p < |s| && IsLeadChar(s[p]) && m.lead == [s[p]] && BodyAt(s, p + 1, needle, allowLetter) == Some(m.trail)))
    {
      BodyAtCases(s, 0, needle, allowLetter, m.trail);
      BodyAtCases(s, p + 1, needle, allowLetter, m.trail);
    }
  }

  /**
   The first match the regex engine finds at `p`. The alternatives of the
   leading group are tried in the order ` `, `(`, `^`, `)`, `|`, so at the
   start of the text a space or `(` is captured in preference to `^`, and
   `^` in preference to `)` or `|`.
   */
  function MatchAt(s: string, p: nat, needle: string, allowLetter: bool): (r: Option<Match>)
    ensures r.Some? ==> End(p, needle, r.value) <= |s|
  {
    var charLead := p < |s| && IsLeadChar(s[p]);
    var viaChar := if charLead then BodyAt(s, p + 1, needle, allowLetter) else None;
    var viaStart := if p == 0 then BodyAt(s, 0, needle, allowLetter) else None;
    if charLead && viaChar.Some? && (s[p] == ' ' || s[p] == '(') then Some(Match([s[p]], viaChar.value))
    else if viaStart.Some? then Some(Match([], viaStart.value))
    else if charLead && viaChar.Some? then Some(Match([s[p]], viaChar.value))
    else None
  }

  /**
   What the engine finds at `p` is a match, nothing is found only when nothing
   matches, and the leading alternatives are preferred in the engine's order.
   */
  lemma MatchAtFirst(s: string, p: nat, needle: string, allowLetter: bool)
    ensures var r := MatchAt(s, p, needle, allowLetter);
            (r.Some? ==> IsMatch(s, p, needle, allowLetter, r.value))
            && (r.None? ==> forall m :: !IsMatch(s, p, needle, allowLetter, m))
            && (r.Some? && r.value.lead == [] && p < |s| && (s[p] == ' ' || s[p] == '(') ==>
                  forall t :: !IsMatch(s, p, needle, allowLetter, Match([s[p]], t)))
            && (r.Some? && r.value.lead != [] && p == 0 && s[p] != ' ' && s[p] != '(' ==>
                  forall t :: !IsMatch(s, p, needle, allowLetter, Match([], t)))
  {
    IsMatchCases(s, p, needle, allowLetter);
  }

  /** `re.search` from position `p`: the leftmost position where the pattern matches. */
  function Search(s: string, p: nat, needle: string, allowLetter: bool): (r: Option<nat>)
    requires p <= |s|
    ensures r.Some? ==> p <= r.value <= |s|
    decreases |s| - p
  {
    if MatchAt(s, p, needle, allowLetter).Some? then Some(p)
    else if p == |s| then None
    else Search(s, p + 1, needle, allowLetter)
  }

  /** The search returns the leftmost position at which the engine finds a match, and nothing only when there is none. */
  lemma {:induction false} SearchLeftmost(s: string, p: nat, needle: string, allowLetter: bool)
    requires p <= |s|
    ensures var r := Search(s, p, needle, allowLetter);
            (r.Some? ==> MatchAt(s, r.value, needle, allowLetter).Some?)
            && (r.Some? ==> forall q :: p <= q < r.value ==> MatchAt(s, q, needle, allowLetter).None?)
            && (r.None? ==> forall q :: p <= q <= |s| ==> MatchAt(s, q, needle, allowLetter).None?)
    decreases |s| - p
  {
    if MatchAt(s, p, needle, allowLetter).None? && p < |s| {
      SearchLeftmost(s, p + 1, needle, allowLetter);
    }
  }

  /** `re.search(pattern, s)` is truthy. */
  predicate Occurs(s: string, needle: string, allowLetter: bool) {
    Search(s, 0, needle, allowLetter).Some?
  }

  /** The search finds a match exactly when the pattern matches somewhere. */
  lemma OccursIff(s: string, needle: string, allowLetter: bool)
    ensures Occurs(s, needle, allowLetter) <==>
      exists p: nat, m :: p <= |s| && IsMatch(s, p, needle, allowLetter, m)
  {
    var r := Search(s, 0, needle, allowLetter);
    SearchLeftmost(s, 0, needle, allowLetter);
    if r.Some? {
      var m := MatchAt(s, r.value, needle, allowLetter).value;
      MatchAtFirst(s, r.value, needle, allowLetter);
      assert IsMatch(s, r.value, needle, allowLetter, m);
    } else {
      forall p: nat, m | p <= |s|
        ensures !IsMatch(s, p, needle, allowLetter, m)
      {
        assert MatchAt(s, p, needle, allowLetter).None?;
        MatchAtFirst(s, p, needle, allowLetter);
      }
    }
  }

  /** The replacement template `\1 REPLACEMENT\2`, with a space before `\2` when letters are allowed. */
  function Render(m: Match, replacement: string, allowLetter: bool): string {
    m.lead + [' '] + replacement + (if allowLetter then [' '] else []) + m.trail
  }

  /**
   `re.sub` from position `p`: leftmost, non-overlapping matches are replaced;
   scanning resumes where a match ends, so a consumed trailing boundary cannot
   serve as the next match's leading boundary. An empty match (only possible
   for an empty needle) is followed by one copied character.
   */
  function SubFrom(s: string, p: nat, needle: string, replacement: string, allowLetter: bool): string
    requires p <= |s|
    decreases |s| - p
  {
    match MatchAt(s, p, needle, allowLetter)
    case Some(m) =>
      var e := End(p, needle, m);
      if e > p then Render(m, replacement, allowLetter) + SubFrom(s, e, needle, replacement, allowLetter)
      else if p < |s| then Render(m, replacement, allowLetter) + [s[p]] + SubFrom(s, p + 1, needle, replacement, allowLetter)
      else Render(m, replacement, allowLetter)
    case None =>
      if p < |s| then [s[p]] + SubFrom(s, p + 1, needle, replacement, allowLetter) else []
  }

  /** `re.sub(pattern, template, s)`. */
  function Sub(s: string, needle: string, replacement: string, allowLetter: bool): string {
    SubFrom(s, 0, needle, replacement, allowLetter)
  }

  lemma {:induction false} SubFromNoMatch(s: string, p: nat, needle: string, replacement: string, allowLetter: bool)
    requires p <= |s|
    requires forall q :: p <= q <= |s| ==> MatchAt(s, q, needle, allowLetter).None?
    ensures SubFrom(s, p, needle, replacement, allowLetter) == s[p..]
    decreases |s| - p
  {
    assert MatchAt(s, p, needle, allowLetter).None?;
    if p < |s| {
      SubFromNoMatch(s, p + 1, needle, replacement, allowLetter);
      assert s[p..] == [s[p]] + s[p + 1..];
    }
  }

  /** Without an occurrence the substitution returns the text unchanged. */
  lemma SubWithoutOccurrence(s: string, needle: string, replacement: string, allowLetter: bool)
    requires !Occurs(s, needle, allowLetter)
    ensures Sub(s, needle, replacement, allowLetter) == s
  {
    SearchLeftmost(s, 0, needle, allowLetter);
    SubFromNoMatch(s, 0, needle, replacement, allowLetter);
  }

  lemma SubFromSkip(s: string, p: nat, needle: string, replacement: string, allowLetter: bool)
    requires p < |s| && MatchAt(s, p, needle, allowLetter).None?
    ensures SubFrom(s, p, needle, replacement, allowLetter) == [s[p]] + SubFrom(s, p + 1, needle, replacement, allowLetter)
  {
  }

  lemma SubFromReplace(s: string, p: nat, needle: string, replacement: string, allowLetter: bool)
    requires p <= |s| && needle != [] && MatchAt(s, p, needle, allowLetter).Some?
    ensures var m := MatchAt(s, p, needle, allowLetter).value;
            SubFrom(s, p, needle, replacement, allowLetter)
              == Render(m, replacement, allowLetter) + SubFrom(s, End(p, needle, m), needle, replacement, allowLetter)
  {
  }

  lemma SliceCons(s: string, p: nat, q: nat)
    requires p < q <= |s|
    ensures s[p..q] == [s[p]] + s[p + 1..q]
  {
  }

  lemma ConsAssoc(c: char, a: string, x: string)
    ensures [c] + (a + x) == ([c] + a) + x
  {
  }

  /**
   The substitution keeps the text up to the leftmost match, renders that
   match, and carries on after it.
   */
  lemma {:induction false} SubFromFirstMatch(s: string, p: nat, needle: string, replacement: string, allowLetter: bool, q: nat, m: Match)
    requires p <= q <= |s| && needle != []
    requires forall k :: p <= k < q ==> MatchAt(s, k, needle, allowLetter).None?
    requires MatchAt(s, q, needle, allowLetter) == Some(m)
    ensures SubFrom(s, p, needle, replacement, allowLetter)
              == s[p..q] + (Render(m, replacement, allowLetter) + SubFrom(s, End(q, needle, m), needle, replacement, allowLetter))
    decreases q - p
  {
    var tail := Render(m, replacement, allowLetter) + SubFrom(s, End(q, needle, m), needle, replacement, allowLetter);
    if q == p {
      SubFromReplace(s, p, needle, replacement, allowLetter);
      assert s[p..q] == [];
    } else {
      SubFromSkip(s, p, needle, replacement, allowLetter);
      SubFromFirstMatch(s, p + 1, needle, replacement, allowLetter, q, m);
      SliceCons(s, p, q);
      ConsAssoc(s[p], s[p + 1..q], tail);
    }
  }
}
