/** The licence gate, scripts/check-licences.py: whether a licence expression can be met with
    allowed licences only (`alternatives`, `chosen`).

    `chosen` is right about flat expressions and about one parenthesised group at either end.
    With a group in the middle it can be wrong: it cuts the text at every OR, also inside the
    parentheses, and then takes a middle alternative of the group for a licence of its own. */
module LicenceGate {

  // ---------------------------------------------------------------------------
  // Expressions
  // ---------------------------------------------------------------------------

  /** A conjunction of licences; `A WITH exception` is one licence. */
  type Alternative = seq<string>

  /** An SPDX expression with at most one parenthesised group: a disjunction of conjunctions,
      in one of which the group stands between `left` and `right`. */
  datatype Expr =
    | Flat(alternatives: seq<Alternative>)
    | Grouped(
        before: seq<Alternative>, left: Alternative, group: seq<Alternative>, right: Alternative,
        after: seq<Alternative>)

  ghost predicate ValidExpr(e: Expr) {
    match e
    case Flat(alts) => alts != [] && NoneEmpty(alts)
    case Grouped(before, left, group, right, after) =>
      group != [] && NoneEmpty(before) && NoneEmpty(group) && NoneEmpty(after)
  }

  ghost predicate NoneEmpty(alts: seq<Alternative>) {
    forall k :: 0 <= k < |alts| ==> alts[k] != []
  }

  /** All licences of a conjunction are allowed. */
  predicate Holds(a: Alternative, allowed: set<string>) {
    forall k :: 0 <= k < |a| ==> a[k] in allowed
  }

  predicate SomeHolds(alts: seq<Alternative>, allowed: set<string>) {
    exists k :: 0 <= k < |alts| && Holds(alts[k], allowed)
  }

  /** What the expression means (Annex D of SPDX 2.3): AND binds tighter than OR. */
  predicate Met(e: Expr, allowed: set<string>) {
    match e
    case Flat(alts) => SomeHolds(alts, allowed)
    case Grouped(before, left, group, right, after) =>
      || SomeHolds(before, allowed)
      || SomeHolds(after, allowed)
      || (Holds(left, allowed) && Holds(right, allowed) && SomeHolds(group, allowed))
  }

  // ---------------------------------------------------------------------------
  // The text, cut at ORs and ANDs
  // ---------------------------------------------------------------------------

  /** A licence as it stands in the text, a parenthesis perhaps stuck to it. */
  datatype Word = Word(licence: string, open: bool, close: bool)

  /** One OR-piece of a text, cut at its ANDs. */
  type Piece = seq<Word>

  function Plain(a: Alternative): (p: Piece)
    ensures |p| == |a| && forall k :: 0 <= k < |p| ==> p[k] == Word(a[k], false, false)
  {
    seq(|a|, k requires 0 <= k < |a| => Word(a[k], false, false))
  }

  function Opened(a: Alternative): (p: Piece)
    requires a != []
    ensures |p| == |a| && p[0].open
  {
    [Word(a[0], true, false)] + Plain(a[1..])
  }

  function Closed(p: Piece): (q: Piece)
    requires p != []
    ensures |q| == |p| && q[|q| - 1].close
  {
    p[..|p| - 1] + [p[|p| - 1].(close := true)]
  }

  function PlainAll(alts: seq<Alternative>): (ps: seq<Piece>)
    ensures |ps| == |alts| && forall k :: 0 <= k < |ps| ==> ps[k] == Plain(alts[k])
  {
    seq(|alts|, k requires 0 <= k < |alts| => Plain(alts[k]))
  }

  /** The whole text as `expr.split(" OR ")` and `alt.split(" AND ")` cut it, parentheses
      or not. */
  function Pieces(e: Expr): (ps: seq<Piece>)
    requires ValidExpr(e)
  {
    match e
    case Flat(alts) => PlainAll(alts)
    case Grouped(before, left, group, right, after) =>
      var n := |group|;
      PlainAll(before)
      + (if n == 1 then [Plain(left) + Closed(Opened(group[0])) + Plain(right)]
         else
           [Plain(left) + Opened(group[0])] + PlainAll(group[1..n - 1])
           + [Closed(Plain(group[n - 1])) + Plain(right)])
      + PlainAll(after)
  }

  /** A part of an alternative is a piece of text; it is allowed when it is one allowed
      licence. */
  predicate PartAllowed(p: Piece, allowed: set<string>) {
    |p| == 1 && !p[0].open && !p[0].close && p[0].licence in allowed
  }

  /** A conjunction kept together as one part. */
  predicate Together(a: Alternative, allowed: set<string>) {
    PartAllowed(Plain(a), allowed)
  }

  // ---------------------------------------------------------------------------
  // What `chosen` passes
  // ---------------------------------------------------------------------------

  /** The first pattern: the text starts with the group and goes on with AND. */
  predicate GroupFirst(e: Expr) {
    e.Grouped? && e.before == [] && e.left == [] && e.right != []
  }

  /** The second: it ends with the group, and AND stands before it. */
  predicate GroupLast(e: Expr) {
    !GroupFirst(e) && e.Grouped? && e.after == [] && e.right == [] && e.left != []
  }

  /** Neither pattern: the text is cut as it stands. */
  predicate CutAsIs(e: Expr) {
    !GroupFirst(e) && !GroupLast(e)
  }

  /** What stands outside the group, as one part: a single licence or not allowed. */
  predicate OutsideAllowed(sides: seq<Alternative>, context: Alternative, allowed: set<string>) {
    sides == [] && Together(context, allowed)
  }

  /** `chosen(expr) is not None` */
  predicate Passes(e: Expr, allowed: set<string>)
    requires ValidExpr(e)
  {
    if GroupFirst(e) then
      exists k :: 0 <= k < |e.group| && Together(e.group[k], allowed) && OutsideAllowed(e.after, e.right, allowed)
    else if GroupLast(e) then
      exists k :: 0 <= k < |e.group| && Together(e.group[k], allowed) && OutsideAllowed(e.before, e.left, allowed)
    else
      exists k :: 0 <= k < |Pieces(e)| && PieceAllowed(Pieces(e)[k], allowed)
  }

  /** `all(p in ALLOWED for p in alt)` */
  predicate PieceAllowed(p: Piece, allowed: set<string>) {
    forall j :: 0 <= j < |p| ==> PartAllowed([p[j]], allowed)
  }

  lemma PlainAllowed(a: Alternative, allowed: set<string>)
    ensures PieceAllowed(Plain(a), allowed) <==> Holds(a, allowed)
  {
    assert forall j :: 0 <= j < |a| ==> (PartAllowed([Plain(a)[j]], allowed) <==> a[j] in allowed);
  }

  lemma MarkedNotAllowed(p: Piece, j: nat, allowed: set<string>)
    requires j < |p| && (p[j].open || p[j].close)
    ensures !PieceAllowed(p, allowed)
  {
    assert !PartAllowed([p[j]], allowed);
  }

  /** A middle alternative of the group, which the cut leaves standing alone. */
  ghost predicate MiddleHolds(e: Expr, allowed: set<string>)
    requires e.Grouped?
  {
    exists j :: 0 < j < |e.group| - 1 && Holds(e.group[j], allowed)
  }

  /** Cut as it stands, a text with a group passes on its side alternatives and on the middle
      ones of the group. */
  lemma CutPasses(e: Expr, allowed: set<string>)
    requires ValidExpr(e) && e.Grouped? && CutAsIs(e)
    ensures Passes(e, allowed) <==>
            SomeHolds(e.before, allowed) || SomeHolds(e.after, allowed) || MiddleHolds(e, allowed)
  {
    hide PieceAllowed, Holds;
    var ps, n, b := Pieces(e), |e.group|, |e.before|;
    forall k | 0 <= k < |ps|
      ensures PieceAllowed(ps[k], allowed) <==>
              || (k < b && Holds(e.before[k], allowed))
              || (b < k < b + n - 1 && Holds(e.group[k - b], allowed))
              || (k >= b + n && Holds(e.after[k - b - n], allowed))
    {
      PieceAt(e, k, allowed);
    }
    assert |ps| == b + n + |e.after|;
    if SomeHolds(e.before, allowed) {
      var k :| 0 <= k < b && Holds(e.before[k], allowed);
      assert PieceAllowed(ps[k], allowed);
    }
    if SomeHolds(e.after, allowed) {
      var k :| 0 <= k < |e.after| && Holds(e.after[k], allowed);
      assert PieceAllowed(ps[b + n + k], allowed);
    }
    if MiddleHolds(e, allowed) {
      var j :| 0 < j < n - 1 && Holds(e.group[j], allowed);
      assert PieceAllowed(ps[b + j], allowed);
    }
    if Passes(e, allowed) {
      var k :| 0 <= k < |ps| && PieceAllowed(ps[k], allowed);
    }
  }

  lemma PieceAt(e: Expr, k: nat, allowed: set<string>)
    requires ValidExpr(e) && e.Grouped? && k < |Pieces(e)|
    ensures |Pieces(e)| == |e.before| + |e.group| + |e.after|
    ensures var b, n := |e.before|, |e.group|;
            PieceAllowed(Pieces(e)[k], allowed) <==>
            || (k < b && Holds(e.before[k], allowed))
            || (b < k < b + n - 1 && Holds(e.group[k - b], allowed))
            || (k >= b + n && Holds(e.after[k - b - n], allowed))
  {
    var ps, n, b := Pieces(e), |e.group|, |e.before|;
    if k < b {
      assert ps[k] == Plain(e.before[k]);
      PlainAllowed(e.before[k], allowed);
    } else if k >= b + n {
      assert ps[k] == Plain(e.after[k - b - n]);
      PlainAllowed(e.after[k - b - n], allowed);
    } else if b < k < b + n - 1 {
      assert ps[k] == Plain(e.group[k - b]);
      PlainAllowed(e.group[k - b], allowed);
    } else if k == b {
      MarkedNotAllowed(ps[k], |e.left|, allowed);
    } else {
      MarkedNotAllowed(ps[k], |e.group[n - 1]| - 1, allowed);
    }
  }

  lemma TogetherHolds(a: Alternative, allowed: set<string>)
    ensures Together(a, allowed) <==> |a| == 1 && Holds(a, allowed)
  {
  }

  /** With the group at an end, `chosen` reads the text right. */
  lemma EndGroupPasses(e: Expr, allowed: set<string>)
    requires ValidExpr(e) && (GroupFirst(e) || GroupLast(e))
    ensures Passes(e, allowed) ==> Met(e, allowed)
  {
    hide Together, Holds;
    if Passes(e, allowed) {
      var k :| 0 <= k < |e.group| && Together(e.group[k], allowed);
      TogetherHolds(e.group[k], allowed);
      TogetherHolds(if GroupFirst(e) then e.right else e.left, allowed);
      NothingHolds(allowed);
    }
  }

  lemma NothingHolds(allowed: set<string>)
    ensures Holds([], allowed)
  {
  }

  /** Flat expressions are decided exactly. */
  lemma FlatExact(e: Expr, allowed: set<string>)
    requires ValidExpr(e) && e.Flat?
    ensures Passes(e, allowed) <==> Met(e, allowed)
  {
    hide PieceAllowed, Holds;
    var ps := Pieces(e);
    forall k | 0 <= k < |ps|
      ensures PieceAllowed(ps[k], allowed) <==> Holds(e.alternatives[k], allowed)
    {
      PlainAllowed(e.alternatives[k], allowed);
    }
    if Met(e, allowed) {
      var k :| 0 <= k < |e.alternatives| && Holds(e.alternatives[k], allowed);
      assert PieceAllowed(ps[k], allowed);
    }
  }

  /** `(A OR ..) AND C` and `C AND (A OR ..)` with single licences are decided exactly. */
  lemma AtomicGroupExact(e: Expr, allowed: set<string>)
    requires ValidExpr(e) && e.Grouped? && e.before == [] && e.after == [] && |e.left| + |e.right| == 1
    requires forall k :: 0 <= k < |e.group| ==> |e.group[k]| == 1
    ensures Passes(e, allowed) <==> Met(e, allowed)
  {
    hide Together, Holds;
    TogetherHolds(e.left, allowed);
    TogetherHolds(e.right, allowed);
    NothingHolds(allowed);
    forall k | 0 <= k < |e.group|
      ensures Together(e.group[k], allowed) <==> Holds(e.group[k], allowed)
    {
      TogetherHolds(e.group[k], allowed);
    }
  }

  /** The licences of a conjunction. */
  function LicencesOf(a: Alternative): set<string> {
    set k | 0 <= k < |a| :: a[k]
  }

  /** The texts `chosen` can misread: cut as they stand, with a middle alternative of the
      group whose licences meet neither what stands around the group nor a side alternative. */
  ghost predicate Misread(e: Expr)
    requires ValidExpr(e)
  {
    && e.Grouped? && CutAsIs(e)
    && exists j :: 0 < j < |e.group| - 1 && ReadAlone(e, j)
  }

  ghost predicate ReadAlone(e: Expr, j: nat)
    requires e.Grouped? && j < |e.group|
  {
    var own := LicencesOf(e.group[j]);
    !(Holds(e.left, own) && Holds(e.right, own)) && !SomeHolds(e.before, own) && !SomeHolds(e.after, own)
  }

  lemma HoldsMore(a: Alternative, small: set<string>, large: set<string>)
    requires small <= large && Holds(a, small)
    ensures Holds(a, large)
  {
  }

  lemma OwnLicences(a: Alternative, allowed: set<string>)
    ensures Holds(a, LicencesOf(a))
    ensures Holds(a, allowed) <==> LicencesOf(a) <= allowed
  {
  }

  /** `chosen` never passes an expression that is not met, whatever is allowed, exactly for
      the expressions it cannot misread. */
  lemma SoundIffNotMisread(e: Expr)
    requires ValidExpr(e)
    ensures (forall allowed :: Passes(e, allowed) ==> Met(e, allowed)) <==> !Misread(e)
  {
    hide Holds, LicencesOf, Passes;
    if Misread(e) {
      var j :| 0 < j < |e.group| - 1 && ReadAlone(e, j);
      var own := LicencesOf(e.group[j]);
      OwnLicences(e.group[j], own);
      CutPasses(e, own);
      assert MiddleHolds(e, own);
      assert Passes(e, own) && !Met(e, own);
    } else {
      forall allowed | Passes(e, allowed)
        ensures Met(e, allowed)
      {
        NotMisreadSound(e, allowed);
      }
    }
  }

  lemma NotMisreadSound(e: Expr, allowed: set<string>)
    requires ValidExpr(e) && !Misread(e) && Passes(e, allowed)
    ensures Met(e, allowed)
  {
    hide Holds, LicencesOf, Passes;
    if e.Flat? {
      FlatExact(e, allowed);
    } else if !CutAsIs(e) {
      EndGroupPasses(e, allowed);
    } else {
      CutPasses(e, allowed);
      if !SomeHolds(e.before, allowed) && !SomeHolds(e.after, allowed) {
        var j :| 0 < j < |e.group| - 1 && Holds(e.group[j], allowed);
        var own := LicencesOf(e.group[j]);
        OwnLicences(e.group[j], allowed);
        assert !ReadAlone(e, j);
        SidesHoldMore(e.before, own, allowed);
        SidesHoldMore(e.after, own, allowed);
        HoldsMore(e.left, own, allowed);
        HoldsMore(e.right, own, allowed);
      }
    }
  }

  lemma SidesHoldMore(alts: seq<Alternative>, small: set<string>, large: set<string>)
    requires small <= large
    ensures SomeHolds(alts, small) ==> SomeHolds(alts, large)
  {
    hide Holds;
    if SomeHolds(alts, small) {
      var k :| 0 <= k < |alts| && Holds(alts[k], small);
      HoldsMore(alts[k], small, large);
    }
  }

  /** `GPL-3.0 AND (A OR MIT OR B) AND GPL-2.0` passes on MIT alone. */
  lemma MisreadExample()
    ensures var e := Grouped([], ["GPL-3.0"], [["A"], ["MIT"], ["B"]], ["GPL-2.0"], []);
            ValidExpr(e) && Passes(e, {"MIT"}) && !Met(e, {"MIT"})
  {
    hide Passes;
    var e := Grouped([], ["GPL-3.0"], [["A"], ["MIT"], ["B"]], ["GPL-2.0"], []);
    CutPasses(e, {"MIT"});
    assert Holds(e.group[1], {"MIT"});
    assert !Holds(e.left, {"MIT"}) by { assert e.left[0] == "GPL-3.0" && "GPL-3.0"[0] == 'G'; }
  }

  // ---------------------------------------------------------------------------
  // Completeness
  // ---------------------------------------------------------------------------

  ghost predicate SomeWithin(alts: seq<Alternative>, own: set<string>) {
    exists k :: 0 <= k < |alts| && LicencesOf(alts[k]) <= own
  }

  /** The texts `chosen` reads in full. With a group at an end: nothing but one licence stands
      outside it, and whatever alternative of the group holds, one of a single licence holds
      with it. With a group elsewhere: whatever alternative holds, a side alternative or a
      middle one holds with it. */
  ghost predicate ReadInFull(e: Expr)
    requires ValidExpr(e)
  {
    match e
    case Flat(_) => true
    case Grouped(before, left, group, right, after) =>
      if CutAsIs(e) then
        forall k :: 0 <= k < |group| ==>
          var own := LicencesOf(left) + LicencesOf(right) + LicencesOf(group[k]);
          || SomeWithin(before, own) || SomeWithin(after, own)
          || exists j :: 0 < j < |group| - 1 && LicencesOf(group[j]) <= own
      else
        var context := if GroupFirst(e) then right else left;
        && before == [] && after == [] && |context| == 1
        && forall k :: 0 <= k < |group| ==>
             SingleWithin(group, LicencesOf(context) + LicencesOf(group[k]))
  }

  /** An alternative of a single licence, which is one of the given ones. */
  ghost predicate SingleWithin(group: seq<Alternative>, own: set<string>) {
    exists j :: 0 <= j < |group| && |group[j]| == 1 && group[j][0] in own
  }

  lemma SomeWithinHolds(alts: seq<Alternative>, own: set<string>)
    ensures SomeWithin(alts, own) <==> SomeHolds(alts, own)
  {
    hide Holds, LicencesOf;
    forall k | 0 <= k < |alts|
      ensures LicencesOf(alts[k]) <= own <==> Holds(alts[k], own)
    {
      OwnLicences(alts[k], own);
    }
  }

  lemma SingleHolds(a: Alternative, own: set<string>)
    requires |a| == 1
    ensures Holds(a, own) <==> a[0] in own
  {
  }

  /** The smallest set of licences that meets the expression with a given alternative. */
  function OwnOf(e: Expr, k: nat): set<string>
    requires e.Grouped? && k < |e.group|
  {
    LicencesOf(e.left) + LicencesOf(e.right) + LicencesOf(e.group[k])
  }

  lemma OwnMeets(e: Expr, k: nat, allowed: set<string>)
    requires ValidExpr(e) && e.Grouped? && k < |e.group|
    ensures Met(e, OwnOf(e, k))
    ensures Holds(e.left, allowed) && Holds(e.right, allowed) && Holds(e.group[k], allowed) <==> OwnOf(e, k) <= allowed
  {
    hide Holds, LicencesOf;
    var own := OwnOf(e, k);
    OwnLicences(e.left, own);
    OwnLicences(e.right, own);
    OwnLicences(e.group[k], own);
    OwnLicences(e.left, allowed);
    OwnLicences(e.right, allowed);
    OwnLicences(e.group[k], allowed);
  }

  lemma MiddleWithin(e: Expr, own: set<string>)
    requires e.Grouped?
    ensures MiddleHolds(e, own) <==> exists j :: 0 < j < |e.group| - 1 && LicencesOf(e.group[j]) <= own
  {
    hide Holds, LicencesOf;
    forall j | 0 < j < |e.group| - 1
      ensures LicencesOf(e.group[j]) <= own <==> Holds(e.group[j], own)
    {
      OwnLicences(e.group[j], own);
    }
  }

  /** A text cut as it stands passes on more licences when it passes on fewer. */
  lemma CutPassesMore(e: Expr, small: set<string>, large: set<string>)
    requires ValidExpr(e) && e.Grouped? && CutAsIs(e) && small <= large && Passes(e, small)
    ensures Passes(e, large)
  {
    hide Holds, Passes;
    CutPasses(e, small);
    CutPasses(e, large);
    SidesHoldMore(e.before, small, large);
    SidesHoldMore(e.after, small, large);
    if MiddleHolds(e, small) {
      var j :| 0 < j < |e.group| - 1 && Holds(e.group[j], small);
      HoldsMore(e.group[j], small, large);
    }
  }

  lemma CutComplete(e: Expr)
    requires ValidExpr(e) && e.Grouped? && CutAsIs(e)
    ensures (forall allowed :: Met(e, allowed) ==> Passes(e, allowed)) <==> ReadInFull(e)
  {
    hide Holds, LicencesOf, Passes, SomeWithin, SomeHolds, MiddleHolds;
    forall k | 0 <= k < |e.group|
      ensures Passes(e, OwnOf(e, k)) <==>
              || SomeWithin(e.before, OwnOf(e, k)) || SomeWithin(e.after, OwnOf(e, k))
              || exists j :: 0 < j < |e.group| - 1 && LicencesOf(e.group[j]) <= OwnOf(e, k)
    {
      CutPasses(e, OwnOf(e, k));
      SomeWithinHolds(e.before, OwnOf(e, k));
      SomeWithinHolds(e.after, OwnOf(e, k));
      MiddleWithin(e, OwnOf(e, k));
    }
    if ReadInFull(e) {
      forall allowed | Met(e, allowed)
        ensures Passes(e, allowed)
      {
        CutPasses(e, allowed);
        if !SomeHolds(e.before, allowed) && !SomeHolds(e.after, allowed) {
          var k := SomeOf(e.group, allowed);
          OwnMeets(e, k, allowed);
          CutPassesMore(e, OwnOf(e, k), allowed);
        }
      }
    } else {
      var k :| 0 <= k < |e.group| && !Passes(e, OwnOf(e, k));
      OwnMeets(e, k, {});
      assert Met(e, OwnOf(e, k)) && !Passes(e, OwnOf(e, k));
    }
  }

  lemma SomeOf(alts: seq<Alternative>, allowed: set<string>) returns (k: nat)
    requires SomeHolds(alts, allowed)
    ensures k < |alts| && Holds(alts[k], allowed)
  {
    hide Holds;
    k :| k < |alts| && Holds(alts[k], allowed);
  }

  /** With the group at an end, the licences of what stands outside it. */
  lemma EndPasses(e: Expr, allowed: set<string>)
    requires ValidExpr(e) && (GroupFirst(e) || GroupLast(e))
    ensures var context := if GroupFirst(e) then e.right else e.left;
            Passes(e, allowed) <==>
              && e.before == [] && e.after == [] && |context| == 1 && Holds(context, allowed)
              && exists j :: 0 <= j < |e.group| && |e.group[j]| == 1 && Holds(e.group[j], allowed)
  {
    hide Together, Holds;
    forall j | 0 <= j < |e.group|
      ensures Together(e.group[j], allowed) <==> |e.group[j]| == 1 && Holds(e.group[j], allowed)
    {
      TogetherHolds(e.group[j], allowed);
    }
    TogetherHolds(if GroupFirst(e) then e.right else e.left, allowed);
  }

  /** The alternative of a single licence that holds whenever alternative k does. */
  lemma EndNeeds(e: Expr, k: nat)
    requires ValidExpr(e) && (GroupFirst(e) || GroupLast(e)) && k < |e.group| && Passes(e, OwnOf(e, k))
    ensures e.before == [] && e.after == [] && |if GroupFirst(e) then e.right else e.left| == 1
    ensures SingleWithin(e.group, LicencesOf(if GroupFirst(e) then e.right else e.left) + LicencesOf(e.group[k]))
  {
    hide Holds, Passes, LicencesOf;
    EndPasses(e, OwnOf(e, k));
    var j :| 0 <= j < |e.group| && |e.group[j]| == 1 && Holds(e.group[j], OwnOf(e, k));
    SingleHolds(e.group[j], OwnOf(e, k));
    OneSide(e, k);
  }

  lemma EndSuffices(e: Expr, allowed: set<string>)
    requires ValidExpr(e) && (GroupFirst(e) || GroupLast(e)) && ReadInFull(e) && Met(e, allowed)
    ensures Passes(e, allowed)
  {
    hide Holds, Passes, LicencesOf, SomeHolds;
    var context := if GroupFirst(e) then e.right else e.left;
    NoneOutside(e, allowed);
    var k := SomeOf(e.group, allowed);
    OwnMeets(e, k, allowed);
    OneSide(e, k);
    var j :| 0 <= j < |e.group| && |e.group[j]| == 1 && e.group[j][0] in LicencesOf(context) + LicencesOf(e.group[k]);
    SingleHolds(e.group[j], allowed);
    EndPasses(e, allowed);
  }

  lemma EndComplete(e: Expr)
    requires ValidExpr(e) && (GroupFirst(e) || GroupLast(e))
    ensures (forall allowed :: Met(e, allowed) ==> Passes(e, allowed)) <==> ReadInFull(e)
  {
    hide Met, Passes, LicencesOf, OwnOf, SingleWithin;
    var context := if GroupFirst(e) then e.right else e.left;
    if forall allowed :: Met(e, allowed) ==> Passes(e, allowed) {
      forall k | 0 <= k < |e.group|
        ensures e.before == [] && e.after == [] && |context| == 1
        ensures SingleWithin(e.group, LicencesOf(context) + LicencesOf(e.group[k]))
      {
        OwnMeets(e, k, {});
        EndNeeds(e, k);
      }
      OwnMeets(e, 0, {});
      EndNeeds(e, 0);
    }
    if ReadInFull(e) {
      forall allowed | Met(e, allowed)
        ensures Passes(e, allowed)
      {
        EndSuffices(e, allowed);
      }
    }
  }

  lemma OneSide(e: Expr, k: nat)
    requires ValidExpr(e) && (GroupFirst(e) || GroupLast(e)) && k < |e.group|
    ensures OwnOf(e, k) == LicencesOf(if GroupFirst(e) then e.right else e.left) + LicencesOf(e.group[k])
  {
  }

  lemma NoneOutside(e: Expr, allowed: set<string>)
    requires e.Grouped? && e.before == [] && e.after == [] && Met(e, allowed)
    ensures Holds(e.left, allowed) && Holds(e.right, allowed) && SomeHolds(e.group, allowed)
  {
  }

  /** `chosen` passes every expression that is met, whatever is allowed, exactly when it reads
      the expression in full. */
  lemma CompleteIffReadInFull(e: Expr)
    requires ValidExpr(e)
    ensures (forall allowed :: Met(e, allowed) ==> Passes(e, allowed)) <==> ReadInFull(e)
  {
    hide Met, Passes, ReadInFull;
    if e.Flat? {
      forall allowed
        ensures Met(e, allowed) ==> Passes(e, allowed)
      {
        FlatExact(e, allowed);
      }
      FlatInFull(e);
    } else if CutAsIs(e) {
      CutComplete(e);
    } else {
      EndComplete(e);
    }
  }

  lemma FlatInFull(e: Expr)
    requires ValidExpr(e) && e.Flat?
    ensures ReadInFull(e)
  {
  }
}
