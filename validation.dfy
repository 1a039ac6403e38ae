/**
 The relaxed validator `__validate_license_relaxed`: the expression is split
 with `re.split('AND|OR|WITH', expr)`, a plain substring split that is not
 bounded by words, and every piece must be a single word once stripped.
 */
module Validation {
  import opened Common
  import opened Text

  /** The operators the split recognises, in the order the alternation tries them. */
  const SpdxOperators: seq<string> := ["AND", "OR", "WITH"]

  /** The length of the operator that the split pattern matches at `p`, or 0 when none does. */
  function OperatorAt(s: string, p: nat): (n: nat)
    ensures n == 0 || n == 2 || n == 3 || n == 4
    ensures n > 0 ==> p + n <= |s| && s[p..p + n] in SpdxOperators
    ensures n == 0 ==> forall op :: op in SpdxOperators ==> !OccursAt(op, s, p)
  {
    if OccursAt("AND", s, p) then 3
    else if OccursAt("OR", s, p) then 2
    else if OccursAt("WITH", s, p) then 4
    else 0
  }

  /** The pieces from the one that starts at `start`, scanning on from `p`. */
  function PiecesFrom(s: string, start: nat, p: nat): (r: seq<string>)
    requires start <= p <= |s|
    ensures |r| >= 1
    decreases |s| - p
  {
    if p == |s| then [s[start..]]
    else
      var n := OperatorAt(s, p);
      if n > 0 then [s[start..p]] + PiecesFrom(s, p + n, p + n)
      else PiecesFrom(s, start, p + 1)
  }

  /** The operators the split removes, scanning from `p`. */
  function SeparatorsFrom(s: string, p: nat): (r: seq<string>)
    requires p <= |s|
    decreases |s| - p
  {
    if p == |s| then []
    else
      var n := OperatorAt(s, p);
      if n > 0 then [s[p..p + n]] + SeparatorsFrom(s, p + n)
      else SeparatorsFrom(s, p + 1)
  }

  /** `re.split('AND|OR|WITH', s)`. */
  function Split(s: string): seq<string> {
    PiecesFrom(s, 0, 0)
  }

  /** The operators between consecutive pieces of `Split(s)`. */
  function Separators(s: string): seq<string> {
    SeparatorsFrom(s, 0)
  }

  /** The pieces joined again with the separators between them. */
  function Interleave(pieces: seq<string>, seps: seq<string>): string
    requires |pieces| == |seps| + 1
    decreases |seps|
  {
    if seps == [] then pieces[0] else pieces[0] + seps[0] + Interleave(pieces[1..], seps[1..])
  }

  lemma SliceSplit(s: string, a: nat, b: nat, c: nat)
    requires a <= b <= c <= |s|
    ensures s[a..] == s[a..b] + (s[b..c] + s[c..])
  {
  }

  lemma {:induction false} PiecesFromSeparators(s: string, start: nat, p: nat)
    requires start <= p <= |s|
    ensures |PiecesFrom(s, start, p)| == |SeparatorsFrom(s, p)| + 1
    ensures Interleave(PiecesFrom(s, start, p), SeparatorsFrom(s, p)) == s[start..]
    decreases |s| - p
  {
    if p < |s| {
      var n := OperatorAt(s, p);
      if n > 0 {
        PiecesFromSeparators(s, p + n, p + n);
        var pieces := PiecesFrom(s, p + n, p + n);
        var seps := SeparatorsFrom(s, p + n);
        InterleaveCons(s[start..p], pieces, s[p..p + n], seps);
        SliceSplit(s, start, p, p + n);
      } else {
        PiecesFromSeparators(s, start, p + 1);
      }
    }
  }

  lemma InterleaveCons(piece: string, pieces: seq<string>, sep: string, seps: seq<string>)
    requires |pieces| == |seps| + 1
    ensures Interleave([piece] + pieces, [sep] + seps) == piece + (sep + Interleave(pieces, seps))
  {
    assert ([piece] + pieces)[1..] == pieces;
    assert ([sep] + seps)[1..] == seps;
  }

  /** Every separator removed from `p` on is one of the operators. */
  lemma {:induction false} SeparatorsFromAreOperators(s: string, p: nat)
    requires p <= |s|
    ensures forall k :: 0 <= k < |SeparatorsFrom(s, p)| ==> SeparatorsFrom(s, p)[k] in SpdxOperators
    decreases |s| - p
  {
    if p < |s| {
      var n := OperatorAt(s, p);
      if n > 0 {
        SeparatorsFromAreOperators(s, p + n);
        var rest := SeparatorsFrom(s, p + n);
        var seps := [s[p..p + n]] + rest;
        assert forall k :: 0 < k < |seps| ==> seps[k] == rest[k - 1];
      } else {
        SeparatorsFromAreOperators(s, p + 1);
      }
    }
  }

  /**
   Splitting loses nothing: the pieces, with the operators the split removed
   between them, give back the expression.
   */
  lemma SplitReconstructs(s: string)
    ensures |Split(s)| == |Separators(s)| + 1
    ensures Interleave(Split(s), Separators(s)) == s
    ensures forall k :: 0 <= k < |Separators(s)| ==> Separators(s)[k] in SpdxOperators
  {
    PiecesFromSeparators(s, 0, 0);
    SeparatorsFromAreOperators(s, 0);
  }

  /** No operator occurs anywhere in `t`. */
  predicate OperatorFree(t: string) {
    forall op, q :: op in SpdxOperators && 0 <= q <= |t| ==> !OccursAt(op, t, q)
  }

  /** An occurrence in a slice is an occurrence in the whole text, shifted by the slice's start. */
  lemma OccursInSlice(op: string, s: string, start: nat, p: nat, q: nat)
    requires start <= p <= |s|
    ensures OccursAt(op, s[start..p], q) ==> OccursAt(op, s, start + q)
  {
    var t := s[start..p];
    if OccursAt(op, t, q) {
      var a := start + q;
      forall k | 0 <= k < |op|
        ensures s[a..a + |op|][k] == op[k]
      {
        assert t[q..q + |op|][k] == op[k];
      }
      assert s[a..a + |op|] == op;
    }
  }

  /** A stretch of `s` in which the scan found no operator contains none. */
  lemma SliceOperatorFree(s: string, start: nat, p: nat)
    requires start <= p <= |s|
    requires forall q :: start <= q < p ==> OperatorAt(s, q) == 0
    ensures OperatorFree(s[start..p])
  {
    var t := s[start..p];
    forall op, q | op in SpdxOperators && 0 <= q <= |t|
      ensures !OccursAt(op, t, q)
    {
      OccursInSlice(op, s, start, p, q);
      if q < |t| {
        assert OperatorAt(s, start + q) == 0;
      }
    }
  }

  lemma {:induction false} PiecesFromOperatorFree(s: string, start: nat, p: nat)
    requires start <= p <= |s|
    requires forall q :: start <= q < p ==> OperatorAt(s, q) == 0
    ensures forall i :: 0 <= i < |PiecesFrom(s, start, p)| ==> OperatorFree(PiecesFrom(s, start, p)[i])
    decreases |s| - p
  {
    if p == |s| {
      SliceOperatorFree(s, start, p);
      assert s[start..p] == s[start..];
    } else {
      var n := OperatorAt(s, p);
      if n > 0 {
        SliceOperatorFree(s, start, p);
        PiecesFromOperatorFree(s, p + n, p + n);
        var rest := PiecesFrom(s, p + n, p + n);
        assert forall i :: 0 < i < |[s[start..p]] + rest| ==> ([s[start..p]] + rest)[i] == rest[i - 1];
      } else {
        PiecesFromOperatorFree(s, start, p + 1);
      }
    }
  }

  /** No piece of the split contains `AND`, `OR` or `WITH`. */
  lemma SplitOperatorFree(s: string)
    ensures forall i :: 0 <= i < |Split(s)| ==> OperatorFree(Split(s)[i])
  {
    PiecesFromOperatorFree(s, 0, 0);
  }

  /** The stripped piece still has a space in it, so it is more than one word. */
  predicate MultiWord(piece: string) {
    ' ' in Strip(piece)
  }

  /** The checks of the loop over the pieces: the first multi-word piece raises. */
  function CheckPieces(pieces: seq<string>): Outcome<FlameError>
    decreases |pieces|
  {
    if pieces == [] then Pass
    else if MultiWord(pieces[0]) then Fail(MultipleWords(Strip(pieces[0])))
    else CheckPieces(pieces[1..])
  }

  /** Piece `i` is the first multi-word piece. */
  predicate FirstMultiWord(pieces: seq<string>, i: nat) {
    i < |pieces| && MultiWord(pieces[i]) && forall j :: 0 <= j < i ==> !MultiWord(pieces[j])
  }

  /** Every piece is a single word. */
  predicate AllSingleWords(pieces: seq<string>) {
    forall i :: 0 <= i < |pieces| ==> !MultiWord(pieces[i])
  }

  lemma AllSingleWordsCons(pieces: seq<string>)
    requires pieces != [] && !MultiWord(pieces[0]) && AllSingleWords(pieces[1..])
    ensures AllSingleWords(pieces)
  {
    forall i | 0 < i < |pieces|
      ensures !MultiWord(pieces[i])
    {
      assert pieces[i] == pieces[1..][i - 1];
    }
  }

  lemma FirstMultiWordCons(pieces: seq<string>, i: nat)
    requires pieces != [] && !MultiWord(pieces[0]) && FirstMultiWord(pieces[1..], i)
    ensures FirstMultiWord(pieces, i + 1) && pieces[i + 1] == pieces[1..][i]
  {
    forall j | 0 < j < i + 1
      ensures !MultiWord(pieces[j])
    {
      assert pieces[j] == pieces[1..][j - 1];
    }
  }

  /** The check failed on piece `i`, the first that is more than one word. */
  predicate FailsAt(pieces: seq<string>, i: nat) {
    FirstMultiWord(pieces, i) && CheckPieces(pieces) == Fail(MultipleWords(Strip(pieces[i])))
  }

  /** The check passes when every piece is one word, and otherwise names the first piece that is not. */
  lemma {:induction false} CheckPiecesFirst(pieces: seq<string>)
    ensures CheckPieces(pieces).Pass? ==> AllSingleWords(pieces)
    ensures CheckPieces(pieces).Fail? ==> exists i: nat :: FailsAt(pieces, i)
    decreases |pieces|
  {
    if pieces != [] && !MultiWord(pieces[0]) {
      var tail := pieces[1..];
      CheckPiecesFirst(tail);
      assert CheckPieces(pieces) == CheckPieces(tail);
      if CheckPieces(tail).Pass? {
        AllSingleWordsCons(pieces);
      } else {
        var i: nat :| FailsAt(tail, i);
        FirstMultiWordCons(pieces, i);
        assert FailsAt(pieces, i + 1);
      }
    } else if pieces != [] {
      assert FailsAt(pieces, 0);
    }
  }

  lemma CheckPiecesStep(pieces: seq<string>, i: nat)
    requires i < |pieces|
    ensures CheckPieces(pieces[i..])
      == if MultiWord(pieces[i]) then Fail(MultipleWords(Strip(pieces[i]))) else CheckPieces(pieces[i + 1..])
  {
    assert pieces[i..][0] == pieces[i] && pieces[i..][1..] == pieces[i + 1..];
  }

  /** What `__validate_license_relaxed` decides about `expr`. */
  function RelaxedCheck(expr: string): Outcome<FlameError> {
    CheckPieces(Split(expr))
  }

  /** Stripping a stripped text changes nothing. */
  lemma StripIdempotent(s: string)
    ensures Strip(Strip(s)) == Strip(s)
  {
    var r := Strip(s);
    assert DropSpaces(r) == r;
    assert StripRight(r) == r;
  }

  /** `__validate_license_relaxed` as the source writes it: a loop over the pieces that raises early. */
  method ValidateLicenseRelaxed(expr: string) returns (r: Outcome<FlameError>)
    ensures r == RelaxedCheck(expr)
  {
    var licenseList := Split(expr);
    var i := 0;
    while i < |licenseList|
      invariant 0 <= i <= |licenseList|
      invariant CheckPieces(licenseList[i..]) == CheckPieces(licenseList)
    {
      CheckPiecesStep(licenseList, i);
      var lic := Strip(licenseList[i]);
      StripIdempotent(licenseList[i]);
      if ' ' in Strip(lic) {
        return Fail(MultipleWords(lic));
      }
      i := i + 1;
    }
    assert licenseList[i..] == [];
    r := Pass;
  }

  /**
   Relaxed validation passes exactly when every piece of the split is a single
   word once stripped; when it raises, it names the first piece that is not.
   */
  lemma RelaxedCheckIff(expr: string)
    ensures RelaxedCheck(expr).Pass? <==> AllSingleWords(Split(expr))
    ensures RelaxedCheck(expr).Fail? ==> exists i: nat :: FailsAt(Split(expr), i)
  {
    CheckPiecesFirst(Split(expr));
    if RelaxedCheck(expr).Fail? {
      var i: nat :| FailsAt(Split(expr), i);
      assert !AllSingleWords(Split(expr));
    }
  }

  /** An expression without any of the operators is one piece: it passes exactly when it is one word. */
  lemma OperatorFreeExpression(expr: string)
    requires OperatorFree(expr)
    ensures RelaxedCheck(expr).Fail? <==> MultiWord(expr)
  {
    NoOperatorNoSplit(expr, 0, 0);
    assert expr[0..] == expr;
    assert Split(expr) == [expr];
    CheckPiecesFirst([expr]);
  }

  lemma {:induction false} NoOperatorNoSplit(s: string, start: nat, p: nat)
    requires start <= p <= |s| && OperatorFree(s)
    ensures PiecesFrom(s, start, p) == [s[start..]]
    decreases |s| - p
  {
    if p < |s| {
      forall op | op in SpdxOperators
        ensures !OccursAt(op, s, p)
      {
      }
      NoOperatorNoSplit(s, start, p + 1);
    }
  }
}
