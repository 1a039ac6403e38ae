/**
 The token rewriter `__update_license_expression_helper`: for every needle of a
 table, in descending order, if its boundary pattern occurs in the current
 text, record one identification and substitute every occurrence; finally
 collapse the whitespace.
 */
module Rewriter {
  import opened Common
  import opened Text
  import opened Order
  import opened Pattern

  /** The helper's result `{'license_expression', 'identifications'}`. */
  datatype Rewritten = Rewritten(licenseExpression: string, identifications: seq<Identification>)

  /** Every needle of `order` is a key of the table. */
  predicate InTable(order: seq<string>, needles: map<string, string>) {
    forall i :: 0 <= i < |order| ==> order[i] in needles
  }

  /** The needles in the order the loop tries them: the table's keys, descending. */
  function NeedleOrder(needles: map<string, string>): (r: seq<string>)
    ensures InTable(r, needles) && SortedDesc(r)
  {
    var r := DescKeys(needles.Keys);
    assert forall i :: 0 <= i < |r| ==> r[i] in r;
    r
  }

  /** One iteration of the loop, for needle `n`. */
  function Step(needles: map<string, string>, tag: string, allowLetter: bool, n: string, s: string): Rewritten
    requires n in needles
  {
    if Occurs(s, n, allowLetter) then
      Rewritten(Sub(s, n, needles[n], allowLetter), [Identification(n, needles[n], tag)])
    else
      Rewritten(s, [])
  }

  /** The loop over `order`: the text it leaves and the identifications it records, in order. */
  function Sweep(order: seq<string>, needles: map<string, string>, tag: string, allowLetter: bool, s: string): Rewritten
    requires InTable(order, needles)
    decreases |order|
  {
    if order == [] then Rewritten(s, [])
    else
      var first := Step(needles, tag, allowLetter, order[0], s);
      var rest := Sweep(order[1..], needles, tag, allowLetter, first.licenseExpression);
      Rewritten(rest.licenseExpression, first.identifications + rest.identifications)
  }

  /** The whole helper: the sweep in descending needle order, then the whitespace clean-up. */
  function Rewrite(needles: map<string, string>, tag: string, s: string, allowLetter: bool): (r: Rewritten)
    ensures Normal(r.licenseExpression)
  {
    var swept := Sweep(NeedleOrder(needles), needles, tag, allowLetter, s);
    Rewritten(Collapse(swept.licenseExpression), swept.identifications)
  }

  /** The text just before needle `order[k]` is tried. */
  function TextBefore(order: seq<string>, k: nat, needles: map<string, string>, tag: string, allowLetter: bool, s: string): string
    requires k <= |order| && InTable(order, needles)
  {
    Sweep(order[..k], needles, tag, allowLetter, s).licenseExpression
  }

  /** Some identification was recorded for needle `n`. */
  predicate Identified(ids: seq<Identification>, n: string) {
    exists i :: 0 <= i < |ids| && ids[i].queriedName == n
  }

  /** Every identification names a needle of `order`. */
  predicate NamesIn(ids: seq<Identification>, order: seq<string>) {
    forall i :: 0 <= i < |ids| ==> ids[i].queriedName in order
  }

  /** Every identification carries its needle's table value and the pass's tag. */
  predicate FromTable(ids: seq<Identification>, needles: map<string, string>, tag: string) {
    forall i :: 0 <= i < |ids| ==>
      ids[i].queriedName in needles && ids[i].name == needles[ids[i].queriedName] && ids[i].identifiedVia == tag
  }

  /** The needles of the identifications are strictly descending. */
  predicate DescendingNames(ids: seq<Identification>) {
    forall i, j :: 0 <= i < j < |ids| ==> StrLt(ids[j].queriedName, ids[i].queriedName)
  }

  /** The sweep's loop state after `i` needles: the text so far and the identifications so far. */
  lemma SweepUnfold(order: seq<string>, i: nat, needles: map<string, string>, tag: string, allowLetter: bool, s: string)
    requires i < |order| && InTable(order, needles)
    ensures var step := Step(needles, tag, allowLetter, order[i], s);
            var rest := Sweep(order[i + 1..], needles, tag, allowLetter, step.licenseExpression);
            Sweep(order[i..], needles, tag, allowLetter, s)
              == Rewritten(rest.licenseExpression, step.identifications + rest.identifications)
  {
    assert order[i..][0] == order[i] && order[i..][1..] == order[i + 1..];
  }

  /** After `i` needles the loop holds `text` and `replacements`, and sweeping the rest from there gives `swept`. */
  predicate SweptFrom(order: seq<string>, i: nat, needles: map<string, string>, tag: string, allowLetter: bool,
                      text: string, replacements: seq<Identification>, swept: Rewritten)
    requires i <= |order| && InTable(order, needles)
  {
    var rest := Sweep(order[i..], needles, tag, allowLetter, text);
    rest.licenseExpression == swept.licenseExpression && replacements + rest.identifications == swept.identifications
  }

  /** One more needle keeps the loop's relation to the sweep. */
  lemma SweepAdvance(order: seq<string>, i: nat, needles: map<string, string>, tag: string, allowLetter: bool,
                     text: string, replacements: seq<Identification>, swept: Rewritten,
                     text': string, replacements': seq<Identification>)
    requires i < |order| && InTable(order, needles)
    requires SweptFrom(order, i, needles, tag, allowLetter, text, replacements, swept)
    requires var step := Step(needles, tag, allowLetter, order[i], text);
             text' == step.licenseExpression && replacements' == replacements + step.identifications
    ensures SweptFrom(order, i + 1, needles, tag, allowLetter, text', replacements', swept)
  {
    SweepUnfold(order, i, needles, tag, allowLetter, text);
    var step := Step(needles, tag, allowLetter, order[i], text);
    var rest := Sweep(order[i + 1..], needles, tag, allowLetter, step.licenseExpression);
    AppendAssoc(replacements, step.identifications, rest.identifications);
  }

  /** The loop body's two branches are the two cases of `Step`. */
  lemma StepCases(needles: map<string, string>, tag: string, allowLetter: bool, n: string, s: string,
                  text': string, found: bool)
    requires n in needles
    requires found == Search(s, 0, n, allowLetter).Some?
    requires text' == if found then Sub(s, n, needles[n], allowLetter) else s
    ensures Step(needles, tag, allowLetter, n, s).licenseExpression == text'
    ensures Step(needles, tag, allowLetter, n, s).identifications
            == if found then [Identification(n, needles[n], tag)] else []
  {
  }

  lemma SweptFromStart(order: seq<string>, needles: map<string, string>, tag: string, allowLetter: bool, s: string)
    requires InTable(order, needles)
    ensures SweptFrom(order, 0, needles, tag, allowLetter, s, [], Sweep(order, needles, tag, allowLetter, s))
  {
    assert order[0..] == order;
  }

  lemma SweptFromEnd(order: seq<string>, needles: map<string, string>, tag: string, allowLetter: bool,
                     text: string, replacements: seq<Identification>, swept: Rewritten)
    requires InTable(order, needles)
    requires SweptFrom(order, |order|, needles, tag, allowLetter, text, replacements, swept)
    ensures text == swept.licenseExpression && replacements == swept.identifications
  {
    assert order[|order|..] == [];
  }

  lemma RewriteOf(needles: map<string, string>, tag: string, s: string, allowLetter: bool, swept: Rewritten)
    requires swept == Sweep(NeedleOrder(needles), needles, tag, allowLetter, s)
    ensures Rewrite(needles, tag, s, allowLetter) == Rewritten(Collapse(swept.licenseExpression), swept.identifications)
  {
  }

  /**
   The rewriter, as the source writes it: a loop over the needles that
   reassigns the expression and appends to the identifications.
   */
  method UpdateLicenseExpression(needles: map<string, string>, needleTag: string, licenseExpression: string, allowLetter: bool)
    returns (r: Rewritten)
    ensures r == Rewrite(needles, needleTag, licenseExpression, allowLetter)
    ensures Normal(r.licenseExpression)
  {
    var order := NeedleOrder(needles);
    ghost var swept := Sweep(order, needles, needleTag, allowLetter, licenseExpression);
    SweptFromStart(order, needles, needleTag, allowLetter, licenseExpression);
    var text := licenseExpression;
    var replacements: seq<Identification> := [];
    var i := 0;
    while i < |order|
      invariant 0 <= i <= |order|
      invariant SweptFrom(order, i, needles, needleTag, allowLetter, text, replacements, swept)
    {
      var needle := order[i];
      ghost var before, beforeText := replacements, text;
      var found := Search(text, 0, needle, allowLetter).Some?;
      if found {
        var replacement := needles[needle];
        replacements := replacements + [Identification(needle, replacement, needleTag)];
        text := Sub(text, needle, replacement, allowLetter);
      }
      StepCases(needles, needleTag, allowLetter, needle, beforeText, text, found);
      SweepAdvance(order, i, needles, needleTag, allowLetter, beforeText, before, swept, text, replacements);
      i := i + 1;
    }
    SweptFromEnd(order, needles, needleTag, allowLetter, text, replacements, swept);
    RewriteOf(needles, needleTag, licenseExpression, allowLetter, swept);
    r := Rewritten(Collapse(text), replacements);
  }

  /** Running the sweep over `a + b` is running it over `a`, then over `b` from where `a` left off. */
  lemma {:induction false} SweepAppend(a: seq<string>, b: seq<string>, needles: map<string, string>, tag: string, allowLetter: bool, s: string)
    requires InTable(a, needles)
    requires InTable(b, needles)
    ensures var first := Sweep(a, needles, tag, allowLetter, s);
            var second := Sweep(b, needles, tag, allowLetter, first.licenseExpression);
            Sweep(a + b, needles, tag, allowLetter, s)
              == Rewritten(second.licenseExpression, first.identifications + second.identifications)
    decreases |a|
  {
    if a == [] {
      assert a + b == b;
    } else {
      assert (a + b)[0] == a[0] && (a + b)[1..] == a[1..] + b;
      var step := Step(needles, tag, allowLetter, a[0], s);
      SweepAppend(a[1..], b, needles, tag, allowLetter, step.licenseExpression);
      var first := Sweep(a[1..], needles, tag, allowLetter, step.licenseExpression);
      var second := Sweep(b, needles, tag, allowLetter, first.licenseExpression);
      AppendAssoc(step.identifications, first.identifications, second.identifications);
    }
  }

  /** Every identification names a needle of `order`, with its table value and the pass's tag. */
  lemma {:induction false} SweepIdentificationsFromTable(order: seq<string>, needles: map<string, string>, tag: string, allowLetter: bool, s: string)
    requires InTable(order, needles)
    ensures NamesIn(Sweep(order, needles, tag, allowLetter, s).identifications, order)
    ensures FromTable(Sweep(order, needles, tag, allowLetter, s).identifications, needles, tag)
    decreases |order|
  {
    if order != [] {
      var step := Step(needles, tag, allowLetter, order[0], s);
      SweepIdentificationsFromTable(order[1..], needles, tag, allowLetter, step.licenseExpression);
      var rest := Sweep(order[1..], needles, tag, allowLetter, step.licenseExpression).identifications;
      var ids := step.identifications + rest;
      forall i | 0 <= i < |ids|
        ensures ids[i].queriedName in order
      {
        if i >= |step.identifications| {
          assert ids[i] == rest[i - |step.identifications|];
          var x := ids[i].queriedName;
          var j :| 0 <= j < |order[1..]| && order[1..][j] == x;
          assert order[j + 1] == x;
        }
      }
      assert forall i :: 0 <= i < |ids| && i >= |step.identifications| ==> ids[i] == rest[i - |step.identifications|];
    }
  }

  /** Identifications follow the order of the needles: strictly descending, hence one per needle at most. */
  lemma {:induction false} SweepIdentificationsDescending(order: seq<string>, needles: map<string, string>, tag: string, allowLetter: bool, s: string)
    requires InTable(order, needles)
    requires SortedDesc(order)
    ensures DescendingNames(Sweep(order, needles, tag, allowLetter, s).identifications)
    decreases |order|
  {
    if order != [] {
      var step := Step(needles, tag, allowLetter, order[0], s);
      var rest := Sweep(order[1..], needles, tag, allowLetter, step.licenseExpression).identifications;
      SweepIdentificationsDescending(order[1..], needles, tag, allowLetter, step.licenseExpression);
      SweepIdentificationsFromTable(order[1..], needles, tag, allowLetter, step.licenseExpression);
      var ids := step.identifications + rest;
      forall i, j | 0 <= i < j < |ids|
        ensures StrLt(ids[j].queriedName, ids[i].queriedName)
      {
        var d := |step.identifications|;
        assert ids[j] == rest[j - d];
        if i < d {
          assert ids[i].queriedName == order[0];
          var x := rest[j - d].queriedName;
          var k :| 0 <= k < |order[1..]| && order[1..][k] == x;
          assert order[k + 1] == x;
        } else {
          assert ids[i] == rest[i - d];
        }
      }
    }
  }

  /** No needle of `order` occurs: the sweep changes nothing and records nothing. */
  lemma {:induction false} SweepWithoutOccurrence(order: seq<string>, needles: map<string, string>, tag: string, allowLetter: bool, s: string)
    requires InTable(order, needles)
    requires forall i :: 0 <= i < |order| ==> !Occurs(s, order[i], allowLetter)
    ensures Sweep(order, needles, tag, allowLetter, s) == Rewritten(s, [])
    decreases |order|
  {
    if order != [] {
      SweepWithoutOccurrence(order[1..], needles, tag, allowLetter, s);
    }
  }

  lemma IdentifiedAppend(a: seq<Identification>, b: seq<Identification>, n: string)
    ensures Identified(a + b, n) <==> Identified(a, n) || Identified(b, n)
  {
    if Identified(a + b, n) {
      var i :| 0 <= i < |a + b| && (a + b)[i].queriedName == n;
      if i >= |a| { assert b[i - |a|] == (a + b)[i]; }
    }
    if Identified(a, n) {
      var i :| 0 <= i < |a| && a[i].queriedName == n;
      assert (a + b)[i] == a[i];
    }
    if Identified(b, n) {
      var i :| 0 <= i < |b| && b[i].queriedName == n;
      assert (a + b)[|a| + i] == b[i];
    }
  }

  lemma NotIdentifiedOutside(ids: seq<Identification>, order: seq<string>, n: string)
    requires NamesIn(ids, order) && n !in order
    ensures !Identified(ids, n)
  {
  }

  /** In a strictly descending order a needle appears neither before nor after its own position. */
  lemma UniqueInOrder(order: seq<string>, k: nat)
    requires SortedDesc(order) && k < |order|
    ensures order[k] !in order[..k] && order[k] !in order[k + 1..]
  {
    if order[k] in order[..k] {
      var j :| 0 <= j < k && order[..k][j] == order[k];
      StrLtIrreflexive(order[k]);
    }
    if order[k] in order[k + 1..] {
      var j :| 0 <= j < |order[k + 1..]| && order[k + 1..][j] == order[k];
      assert order[k + 1 + j] == order[k];
      StrLtIrreflexive(order[k]);
    }
  }

  /**
   Exactly one identification per needle whose pattern occurs in the text as
   it stands when that needle's turn comes.
   */
  lemma SweepIdentifiesExactlyTheOccurring(order: seq<string>, k: nat, needles: map<string, string>, tag: string, allowLetter: bool, s: string)
    requires InTable(order, needles)
    requires SortedDesc(order) && k < |order|
    ensures Identified(Sweep(order, needles, tag, allowLetter, s).identifications, order[k])
            <==> Occurs(TextBefore(order, k, needles, tag, allowLetter, s), order[k], allowLetter)
  {
    var n := order[k];
    var pre, post := order[..k], order[k + 1..];
    assert order == pre + order[k..];
    SweepAppend(pre, order[k..], needles, tag, allowLetter, s);
    var a := Sweep(pre, needles, tag, allowLetter, s);
    SweepUnfold(order, k, needles, tag, allowLetter, a.licenseExpression);
    var mid := Step(needles, tag, allowLetter, n, a.licenseExpression);
    var c := Sweep(post, needles, tag, allowLetter, mid.licenseExpression);
    var ids := Sweep(order, needles, tag, allowLetter, s).identifications;
    assert ids == a.identifications + (mid.identifications + c.identifications);
    SweepIdentificationsFromTable(pre, needles, tag, allowLetter, s);
    SweepIdentificationsFromTable(post, needles, tag, allowLetter, mid.licenseExpression);
    UniqueInOrder(order, k);
    NotIdentifiedOutside(a.identifications, pre, n);
    NotIdentifiedOutside(c.identifications, post, n);
    IdentifiedAppend(a.identifications, mid.identifications + c.identifications, n);
    IdentifiedAppend(mid.identifications, c.identifications, n);
    if Occurs(a.licenseExpression, n, allowLetter) {
      assert mid.identifications[0].queriedName == n;
    }
  }

  /** No needle of the table occurs (in particular, the table is empty): only the clean-up happens. */
  lemma RewriteWithoutOccurrence(needles: map<string, string>, tag: string, s: string, allowLetter: bool)
    requires forall n :: n in needles ==> !Occurs(s, n, allowLetter)
    ensures Rewrite(needles, tag, s, allowLetter) == Rewritten(Collapse(s), [])
  {
    var order := NeedleOrder(needles);
    SweepWithoutOccurrence(order, needles, tag, allowLetter, s);
  }

  /**
   The identifications of a whole rewrite: each carries its needle's table value
   and the tag, they come in descending needle order, and needle `order[k]` is
   recorded exactly when its pattern occurs in the text as it stands at its turn
   (for the first needle, the input itself).
   */
  lemma RewriteIdentifications(needles: map<string, string>, tag: string, s: string, allowLetter: bool)
    ensures var ids := Rewrite(needles, tag, s, allowLetter).identifications;
            FromTable(ids, needles, tag) && DescendingNames(ids)
    ensures var order := NeedleOrder(needles);
            var ids := Rewrite(needles, tag, s, allowLetter).identifications;
            forall k :: 0 <= k < |order| ==>
              (Identified(ids, order[k]) <==> Occurs(TextBefore(order, k, needles, tag, allowLetter, s), order[k], allowLetter))
  {
    var order := NeedleOrder(needles);
    SweepIdentificationsFromTable(order, needles, tag, allowLetter, s);
    SweepIdentificationsDescending(order, needles, tag, allowLetter, s);
    forall k | 0 <= k < |order|
      ensures Identified(Sweep(order, needles, tag, allowLetter, s).identifications, order[k])
              <==> Occurs(TextBefore(order, k, needles, tag, allowLetter, s), order[k], allowLetter)
    {
      SweepIdentifiesExactlyTheOccurring(order, k, needles, tag, allowLetter, s);
    }
  }

  /** The largest needle is tried first, on the input text itself. */
  lemma RewriteFirstNeedle(needles: map<string, string>, tag: string, s: string, allowLetter: bool, n: string)
    requires IsMaxIn(n, needles.Keys)
    ensures Identified(Rewrite(needles, tag, s, allowLetter).identifications, n) <==> Occurs(s, n, allowLetter)
  {
    var order := NeedleOrder(needles);
    assert order[0] == n by {
      MaxUnique(needles.Keys);
    }
    SweepIdentifiesExactlyTheOccurring(order, 0, needles, tag, allowLetter, s);
    assert order[..0] == [];
  }

  /**
   A second pass with the same table is not free of events: a needle that its
   own replacement still contains is identified again, here on the output `a`
   of the first pass over `a` with the table `a -> a`.
   */
  lemma RewriteRepeatsEvents()
    ensures var t := map["a" := "a"];
            var first := Rewrite(t, "alias", "a", false);
            first.licenseExpression == "a"
            && Identified(first.identifications, "a")
            && Identified(Rewrite(t, "alias", first.licenseExpression, false).identifications, "a")
  {
    var t := map["a" := "a"];
    var order := NeedleOrder(t);
    assert order == ["a"] by {
      assert |order| == 1 && "a" in order;
    }
    assert MatchAt("a", 0, "a", false) == Some(Match([], []));
    assert MatchAt("a", 1, "a", false).None?;
    assert Sub("a", "a", "a", false) == " a";
    assert Step(t, "alias", false, "a", "a") == Rewritten(" a", [Identification("a", "a", "alias")]);
    assert order[1..] == [];
    var swept := Sweep(order, t, "alias", false, "a");
    assert swept == Rewritten(" a", [Identification("a", "a", "alias")]);
    assert Squeeze(" a") == " a";
    assert Collapse(" a") == "a";
    var first := Rewrite(t, "alias", "a", false);
    assert first.identifications[0].queriedName == "a";
  }
}
