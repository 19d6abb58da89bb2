/**
 * `_LocatorBuilder` (Components/BasicComponent.py:934-1013): folds an ordered locator list into
 * one CSS selector (attribute, class and ID selectors, descendant combinators and selector lists
 * of section 5, 6.3, 6.4 and 8.1 of W3C Selectors Level 3) or one XPath 1.0 expression.
 * Only the strings are modelled, not what they select.
 */
module LocatorBuilder {
  import opened Wrappers
  import opened Failures
  import opened Strings
  import opened Locators

  /**
   * The comma splitter of the CSS builder (a regular expression that splits at commas outside
   * quoted attribute values). It is left uninterpreted: the builder only looks at how many
   * branches it returns and at the branches themselves.
   */
  type Splitter = string -> seq<string>

  /** What one locator contributes to a CSS selector: one compound part, or comma branches. */
  datatype CssPiece = Single(css: string) | Branches(branches: seq<string>)

  /** A branch with one leading space removed. */
  function StripOne(b: string): string {
    if |b| > 0 && b[0] == ' ' then b[1..] else b
  }

  /** Strips each comma branch; `split_locator[0]` on an empty branch raises IndexError. */
  function StripBranches(bs: seq<string>): (r: Result<seq<string>, Error>)
    ensures r.Success? <==> forall i :: 0 <= i < |bs| ==> |bs[i]| > 0
    ensures r.Failure? ==> r.error == IndexError
    ensures r.Success? ==> |r.value| == |bs| && forall i :: 0 <= i < |bs| ==> r.value[i] == StripOne(bs[i])
  {
    if |bs| == 0 then Success([])
    else if |bs[0]| == 0 then Failure(IndexError)
    else
      var rest :- StripBranches(bs[1..]);
      Success([StripOne(bs[0])] + rest)
  }

  /** The default case of the CSS builder: the raw value, or its branches when the splitter finds several. */
  function RawPiece(v: string, split: Splitter): (r: Result<CssPiece, Error>)
    ensures r.Success? && r.value.Branches? ==> |r.value.branches| > 1
    ensures |split(v)| <= 1 ==> r == Success(Single(v))
    ensures |split(v)| > 1 ==> (r.Failure? <==> StripBranches(split(v)).Failure?)
    ensures r.Success? && r.value.Branches? ==> StripBranches(split(v)) == Success(r.value.branches)
    ensures r.Failure? ==> r.error == IndexError
  {
    var parts := split(v);
    if |parts| > 1 then
      var bs :- StripBranches(parts);
      Success(Branches(bs))
    else
      Success(Single(v))
  }

  /** The CSS rendering of one locator (BasicComponent.py:950-967). */
  function CssPieceOf(l: Locator, split: Splitter): (r: Result<CssPiece, Error>)
    ensures r.Success? && r.value.Branches? ==> |r.value.branches| > 1
    ensures (l.NoLocator? || (l.Located? && l.strategy == XPath)) ==> r == Failure(TypeError)
    ensures l.Located? && l.strategy == Id ==> r == Success(Single("[id=\"" + l.value + "\"]"))
    ensures l.Located? && l.strategy == ClassName ==> r == Success(Single("." + l.value))
    ensures l.Located? && l.strategy == Name ==> r == Success(Single("[name=\"" + l.value + "\"]"))
    ensures l.Bare? ==> r == RawPiece(l.css, split)
    ensures l.Located? && l.strategy !in {XPath, Id, ClassName, Name} ==> r == RawPiece(l.value, split)
  {
    match l
    case NoLocator => Failure(TypeError)
    case Bare(v) => RawPiece(v, split)
    case Located(strategy, v) =>
      match strategy
      case XPath => Failure(TypeError)
      case Id => Success(Single("[id=\"" + v + "\"]"))
      case ClassName => Success(Single("." + v))
      case Name => Success(Single("[name=\"" + v + "\"]"))
      case _ => RawPiece(v, split)
  }

  /** `[f'{a} {s}' for a in alts]`: one compound part appended to every alternative. */
  function Suffix(alts: seq<string>, s: string): (r: seq<string>)
    ensures |r| == |alts|
    ensures forall i :: 0 <= i < |alts| ==> r[i] == alts[i] + " " + s
  {
    seq(|alts|, i requires 0 <= i < |alts| => alts[i] + " " + s)
  }

  /** Every alternative extended by every branch, branch by branch. */
  function Cross(alts: seq<string>, bs: seq<string>): (r: seq<string>)
    ensures |r| == |alts| * |bs|
  {
    if |bs| == 0 then []
    else
      var r := Suffix(alts, bs[0]) + Cross(alts, bs[1..]);
      assert |r| == |alts| + |alts| * (|bs| - 1);
      r
  }

  /** Cross lists alternative `i` extended by branch `j` at position `j * |alts| + i`: branch-major order. */
  lemma {:induction false} CrossIsBranchMajor(alts: seq<string>, bs: seq<string>, i: nat, j: nat)
    requires i < |alts| && j < |bs|
    ensures j * |alts| + i < |Cross(alts, bs)|
    ensures Cross(alts, bs)[j * |alts| + i] == alts[i] + " " + bs[j]
    decreases j
  {
    var m := |alts|;
    var head := Suffix(alts, bs[0]);
    var rest := Cross(alts, bs[1..]);
    assert Cross(alts, bs) == head + rest;
    if j == 0 {
      assert (head + rest)[i] == head[i];
    } else {
      CrossIsBranchMajor(alts, bs[1..], i, j - 1);
      var k := (j - 1) * m + i;
      assert j * m + i == m + k by {
        assert j * m == (j - 1) * m + m;
      }
      assert (head + rest)[m + k] == rest[k];
    }
  }

  /** `' '.join(css_list) + (' ' + b if css_list else b)`: the first comma piece prefixes each branch. */
  function Leading(simple: seq<string>, b: string): string {
    if |simple| > 0 then Join(" ", simple) + " " + b else b
  }

  function FirstAlternatives(simple: seq<string>, bs: seq<string>): (r: seq<string>)
    ensures |r| == |bs|
    ensures forall j :: 0 <= j < |bs| ==> r[j] == Leading(simple, bs[j])
  {
    seq(|bs|, j requires 0 <= j < |bs| => Leading(simple, bs[j]))
  }

  function ToSet(s: seq<string>): set<string> {
    set x | x in s
  }

  /**
   * `for v in to_remove: lst.remove(v)` once every member of `to_remove` has been located:
   * the first occurrence of each member of `to_remove` is dropped, later occurrences stay.
   */
  function Drop(s: seq<string>, toRemove: set<string>): seq<string>
  {
    if |s| == 0 then []
    else if s[0] in toRemove then Drop(s[1..], toRemove - {s[0]})
    else [s[0]] + Drop(s[1..], toRemove)
  }

  /** Python's `list.remove(v)`: the first occurrence goes (a missing value is not modelled). */
  function RemoveFirst(s: seq<string>, v: string): seq<string>
  {
    if |s| == 0 then []
    else if s[0] == v then s[1..]
    else [s[0]] + RemoveFirst(s[1..], v)
  }

  /** Removing values one after another, in the order `vs` lists them. */
  function RemoveEach(s: seq<string>, vs: seq<string>): seq<string>
    decreases |vs|
  {
    if |vs| == 0 then s else RemoveEach(RemoveFirst(s, vs[0]), vs[1..])
  }

  predicate Distinct(s: seq<string>) {
    forall i, j :: 0 <= i < j < |s| ==> s[i] != s[j]
  }

  lemma {:induction false} DropNothing(s: seq<string>)
    ensures Drop(s, {}) == s
    decreases |s|
  {
    if |s| > 0 {
      DropNothing(s[1..]);
    }
  }

  lemma {:induction false} DropAfterRemoveFirst(s: seq<string>, v: string, toRemove: set<string>)
    requires v !in toRemove
    ensures Drop(RemoveFirst(s, v), toRemove) == Drop(s, toRemove + {v})
    decreases |s|
  {
    if |s| > 0 {
      if s[0] == v {
        assert (toRemove + {v}) - {s[0]} == toRemove;
      } else if s[0] in toRemove {
        DropAfterRemoveFirst(s[1..], v, toRemove - {s[0]});
        assert (toRemove - {s[0]}) + {v} == (toRemove + {v}) - {s[0]};
      } else {
        DropAfterRemoveFirst(s[1..], v, toRemove);
      }
    }
  }

  /** Whatever order Python's set iteration takes, removing the values one by one equals Drop. */
  lemma {:induction false} RemovalOrderIrrelevant(s: seq<string>, order: seq<string>)
    requires Distinct(order)
    ensures RemoveEach(s, order) == Drop(s, ToSet(order))
    decreases |order|
  {
    if |order| == 0 {
      assert ToSet(order) == {};
      DropNothing(s);
    } else {
      RemovalOrderIrrelevant(RemoveFirst(s, order[0]), order[1..]);
      assert order[0] !in ToSet(order[1..]);
      DropAfterRemoveFirst(s, order[0], ToSet(order[1..]));
      assert ToSet(order[1..]) + {order[0]} == ToSet(order);
    }
  }

  /** Removing values that all occur in the prefix leaves the appended part untouched. */
  lemma {:induction false} DropWithinPrefix(a: seq<string>, b: seq<string>, toRemove: set<string>)
    requires toRemove <= ToSet(a)
    ensures Drop(a + b, toRemove) == Drop(a, toRemove) + b
    decreases |a|
  {
    if |a| == 0 {
      assert toRemove == {};
      assert a + b == b;
      DropNothing(b);
    } else {
      assert (a + b)[1..] == a[1..] + b;
      if a[0] in toRemove {
        DropWithinPrefix(a[1..], b, toRemove - {a[0]});
      } else {
        DropWithinPrefix(a[1..], b, toRemove);
      }
    }
  }

  /** Dropping the first occurrence of every value of a duplicate-free list empties it. */
  lemma {:induction false} DropDistinct(a: seq<string>)
    requires Distinct(a)
    ensures Drop(a, ToSet(a)) == []
    decreases |a|
  {
    if |a| > 0 {
      assert ToSet(a) - {a[0]} == ToSet(a[1..]);
      DropDistinct(a[1..]);
    }
  }

  /** Which of the two readings of the comma step a build follows. */
  datatype Variant = AsWritten | Corrected

  /** The builder's two accumulators: `css_list` (plain parts) and `complex_css_list` (alternatives). */
  datatype CssState = CssState(simple: seq<string>, alts: seq<string>)

  /** One locator's effect on the accumulators (BasicComponent.py:941-947, 967-986). */
  function Step(v: Variant, st: CssState, p: CssPiece): CssState
  {
    match p
    case Single(s) =>
      if |st.alts| > 0 then st.(alts := Suffix(st.alts, s)) else st.(simple := st.simple + [s])
    case Branches(bs) =>
      if |st.alts| == 0 then st.(alts := FirstAlternatives(st.simple, bs))
      else if v == AsWritten then st.(alts := Drop(st.alts + Cross(st.alts, bs), ToSet(st.alts)))
      else st.(alts := Cross(st.alts, bs))
  }

  /** The comma step as written agrees with the intended cross product when the alternatives are distinct. */
  lemma StepAgreesOnDistinct(st: CssState, p: CssPiece)
    requires Distinct(st.alts)
    ensures Step(AsWritten, st, p) == Step(Corrected, st, p)
  {
    if p.Branches? && |st.alts| > 0 {
      DropWithinPrefix(st.alts, Cross(st.alts, p.branches), ToSet(st.alts));
      DropDistinct(st.alts);
    }
  }

  /** The locator loop: the first locator that raises aborts the build (`FoldStopsAtFirstError`). */
  function Fold(v: Variant, st: CssState, ls: seq<Locator>, split: Splitter): Result<CssState, Error>
    decreases |ls|
  {
    if |ls| == 0 then Success(st)
    else
      var p :- CssPieceOf(ls[0], split);
      Fold(v, Step(v, st, p), ls[1..], split)
  }

  /** The loop goes through exactly when every locator converts; otherwise the first error escapes. */
  lemma {:induction false} FoldStopsAtFirstError(v: Variant, st: CssState, ls: seq<Locator>, split: Splitter)
    ensures Fold(v, st, ls, split).Success? <==> forall i :: 0 <= i < |ls| ==> CssPieceOf(ls[i], split).Success?
    ensures Fold(v, st, ls, split).Failure? ==>
              exists i :: 0 <= i < |ls| && CssPieceOf(ls[i], split) == Failure(Fold(v, st, ls, split).error)
                        && forall j :: 0 <= j < i ==> CssPieceOf(ls[j], split).Success?
    decreases |ls|
  {
    if |ls| > 0 && CssPieceOf(ls[0], split).Success? {
      var p := CssPieceOf(ls[0], split).value;
      FoldStopsAtFirstError(v, Step(v, st, p), ls[1..], split);
      assert forall i :: 1 <= i < |ls| ==> ls[1..][i - 1] == ls[i];
      if Fold(v, st, ls, split).Failure? {
        var e := Fold(v, st, ls, split).error;
        var i :| 0 <= i < |ls[1..]| && CssPieceOf(ls[1..][i], split) == Failure(e)
                 && forall j :: 0 <= j < i ==> CssPieceOf(ls[1..][j], split).Success?;
        assert CssPieceOf(ls[i + 1], split) == Failure(e);
        assert forall j :: 0 <= j < i + 1 ==> CssPieceOf(ls[j], split).Success?;
      }
    }
  }

  /** `", ".join(complex_css_list)` when there are alternatives, else `" ".join(css_list)`. */
  function Render(st: CssState): string {
    if |st.alts| > 0 then Join(", ", st.alts) else Join(" ", st.simple)
  }

  function BuildCss(v: Variant, ls: seq<Locator>, split: Splitter): (r: Result<Locator, Error>)
    ensures r.Success? <==> forall i :: 0 <= i < |ls| ==> CssPieceOf(ls[i], split).Success?
    ensures r.Success? ==> r.value.Located? && r.value.strategy == CssSelector
    ensures r.Failure? ==>
              exists i :: 0 <= i < |ls| && CssPieceOf(ls[i], split) == Failure(r.error)
                        && forall j :: 0 <= j < i ==> CssPieceOf(ls[j], split).Success?
  {
    FoldStopsAtFirstError(v, CssState([], []), ls, split);
    var st :- Fold(v, CssState([], []), ls, split);
    Success(Located(CssSelector, Render(st)))
  }

  /** `get_css_locator` exactly as written, including its treatment of repeated alternatives. */
  function CssLocatorAsWritten(ls: seq<Locator>, split: Splitter): (r: Result<Locator, Error>)
    ensures r.Success? <==> forall i :: 0 <= i < |ls| ==> CssPieceOf(ls[i], split).Success?
    ensures r.Success? ==> r.value.Located? && r.value.strategy == CssSelector
  {
    BuildCss(AsWritten, ls, split)
  }

  /**
   * `get_css_locator` with the comma step as intended: the alternatives are replaced by their
   * cross product with the branches. Everything else in the model composes selectors with this.
   * An XPATH locator (or a missing one) raises TypeError, an empty comma branch IndexError; the
   * first locator that raises decides the error.
   */
  function CssLocator(ls: seq<Locator>, split: Splitter): (r: Result<Locator, Error>)
    ensures r.Success? <==> forall i :: 0 <= i < |ls| ==> CssPieceOf(ls[i], split).Success?
    ensures r.Success? ==> r.value.Located? && r.value.strategy == CssSelector
    ensures r.Failure? ==>
              exists i :: 0 <= i < |ls| && CssPieceOf(ls[i], split) == Failure(r.error)
                        && forall j :: 0 <= j < i ==> CssPieceOf(ls[j], split).Success?
  {
    BuildCss(Corrected, ls, split)
  }

  // ---------------------------------------------------------------------------------------------
  // The reference reading of a CSS build: the cross product of every locator's options.

  /** The selector parts a piece offers: itself, or each of its branches. */
  function Options(p: CssPiece): seq<string> {
    match p
    case Single(s) => [s]
    case Branches(bs) => bs
  }

  predicate AllSingle(ps: seq<CssPiece>) {
    forall i :: 0 <= i < |ps| ==> ps[i].Single?
  }

  predicate WellFormed(ps: seq<CssPiece>) {
    forall i :: 0 <= i < |ps| ==> (ps[i].Branches? ==> |ps[i].branches| > 1)
  }

  function Singles(ps: seq<CssPiece>): (r: seq<string>)
    requires AllSingle(ps)
    ensures |r| == |ps|
  {
    seq(|ps|, i requires 0 <= i < |ps| => ps[i].css)
  }

  /**
   * Every way of picking one option per piece, joined with spaces: the last piece's option
   * varies slowest (branch-major order).
   */
  function Product(ps: seq<CssPiece>): (r: seq<string>)
    requires |ps| > 0
    decreases |ps|
  {
    if |ps| == 1 then Options(ps[0])
    else Cross(Product(ps[..|ps| - 1]), Options(ps[|ps| - 1]))
  }

  lemma {:induction false} ProductNonEmpty(ps: seq<CssPiece>)
    requires |ps| > 0 && WellFormed(ps)
    ensures |Product(ps)| > 0
    decreases |ps|
  {
    var last := ps[|ps| - 1];
    assert WellFormed([last]) && |Options(last)| > 0 by {
      assert last.Branches? ==> |last.branches| > 1;
    }
    if |ps| > 1 {
      var init := ps[..|ps| - 1];
      assert WellFormed(init) by {
        assert forall i :: 0 <= i < |init| ==> init[i] == ps[i];
      }
      ProductNonEmpty(init);
      CrossNonEmpty(Product(init), Options(last));
    }
  }

  lemma CrossNonEmpty(alts: seq<string>, bs: seq<string>)
    requires |alts| > 0 && |bs| > 0
    ensures |Cross(alts, bs)| > 0
  {
    assert |Suffix(alts, bs[0])| > 0;
  }

  /** With no comma anywhere the product has one alternative, the space-join of the parts. */
  lemma {:induction false} ProductOfSingles(ps: seq<CssPiece>)
    requires |ps| > 0 && AllSingle(ps)
    ensures Product(ps) == [Join(" ", Singles(ps))]
    decreases |ps|
  {
    if |ps| > 1 {
      var init := ps[..|ps| - 1];
      ProductOfSingles(init);
      JoinSnoc(" ", Singles(init), ps[|ps| - 1].css);
      assert Singles(init) + [ps[|ps| - 1].css] == Singles(ps);
    }
  }

  /** What the accumulators hold after the pieces `done` were processed by the corrected builder. */
  predicate Inv(st: CssState, done: seq<CssPiece>) {
    if AllSingle(done) then st == CssState(Singles(done), [])
    else |done| > 0 && st.alts == Product(done) && |st.alts| > 0
  }

  lemma StepKeepsInv(st: CssState, done: seq<CssPiece>, p: CssPiece)
    requires Inv(st, done) && WellFormed(done + [p])
    ensures Inv(Step(Corrected, st, p), done + [p])
  {
    var ps := done + [p];
    assert ps[..|ps| - 1] == done;
    assert WellFormed(done);
    if AllSingle(done) {
      if p.Single? {
        assert Singles(ps) == Singles(done) + [p.css];
      } else if |done| == 0 {
        assert ps == [p];
        assert FirstAlternatives(st.simple, p.branches) == p.branches;
      } else {
        ProductOfSingles(done);
        var x := Join(" ", Singles(done));
        var c := Cross([x], p.branches);
        assert forall j :: 0 <= j < |p.branches| ==> c[j] == x + " " + p.branches[j] by {
          forall j | 0 <= j < |p.branches|
            ensures c[j] == x + " " + p.branches[j]
          {
            CrossIsBranchMajor([x], p.branches, 0, j);
          }
        }
        assert c == FirstAlternatives(st.simple, p.branches);
        ProductNonEmpty(ps);
      }
    } else {
      ProductNonEmpty(ps);
      if p.Single? {
        assert Cross(st.alts, [p.css]) == Suffix(st.alts, p.css) + Cross(st.alts, []);
      }
    }
  }

  function PiecesOf(ls: seq<Locator>, split: Splitter): (ps: seq<CssPiece>)
    requires forall i :: 0 <= i < |ls| ==> CssPieceOf(ls[i], split).Success?
    ensures |ps| == |ls| && WellFormed(ps)
    ensures forall i :: 0 <= i < |ls| ==> ps[i] == CssPieceOf(ls[i], split).value
  {
    seq(|ls|, i requires 0 <= i < |ls| && CssPieceOf(ls[i], split).Success? => CssPieceOf(ls[i], split).value)
  }

  lemma {:induction false} FoldKeepsInv(st: CssState, done: seq<CssPiece>, ls: seq<Locator>, split: Splitter)
    requires forall i :: 0 <= i < |ls| ==> CssPieceOf(ls[i], split).Success?
    requires Inv(st, done) && WellFormed(done)
    ensures Fold(Corrected, st, ls, split).Success?
    ensures Inv(Fold(Corrected, st, ls, split).value, done + PiecesOf(ls, split))
    decreases |ls|
  {
    if |ls| == 0 {
      assert done + PiecesOf(ls, split) == done;
    } else {
      var p := CssPieceOf(ls[0], split).value;
      var next := Step(Corrected, st, p);
      WellFormedSnoc(done, p);
      StepKeepsInv(st, done, p);
      PiecesOfCons(ls, split);
      FoldKeepsInv(next, done + [p], ls[1..], split);
      FoldCons(Corrected, st, ls, split);
      ConsAssoc(done, p, PiecesOf(ls[1..], split));
      InvOfEqual(Fold(Corrected, next, ls[1..], split).value, (done + [p]) + PiecesOf(ls[1..], split), done + PiecesOf(ls, split));
    }
  }

  lemma FoldCons(v: Variant, st: CssState, ls: seq<Locator>, split: Splitter)
    requires |ls| > 0 && CssPieceOf(ls[0], split).Success?
    ensures Fold(v, st, ls, split) == Fold(v, Step(v, st, CssPieceOf(ls[0], split).value), ls[1..], split)
  {
  }

  lemma ConsAssoc<T>(a: seq<T>, x: T, b: seq<T>)
    ensures (a + [x]) + b == a + ([x] + b)
  {
  }

  lemma InvOfEqual(st: CssState, d1: seq<CssPiece>, d2: seq<CssPiece>)
    requires Inv(st, d1) && d1 == d2
    ensures Inv(st, d2)
  {
  }

  lemma PiecesOfCons(ls: seq<Locator>, split: Splitter)
    requires |ls| > 0
    requires forall i :: 0 <= i < |ls| ==> CssPieceOf(ls[i], split).Success?
    ensures forall i :: 0 <= i < |ls[1..]| ==> CssPieceOf(ls[1..][i], split).Success?
    ensures PiecesOf(ls, split) == [CssPieceOf(ls[0], split).value] + PiecesOf(ls[1..], split)
  {
    assert forall i :: 0 <= i < |ls[1..]| ==> ls[1..][i] == ls[i + 1];
  }

  lemma WellFormedSnoc(done: seq<CssPiece>, p: CssPiece)
    requires WellFormed(done) && WellFormed([p])
    ensures WellFormed(done + [p])
  {
    assert forall i :: 0 <= i < |done| ==> (done + [p])[i] == done[i];
  }

  /**
   * The CSS selector is the space-join of the parts when no locator has comma branches, and
   * otherwise the `", "`-join of the full cross product: every alternative keeps the whole
   * accumulated prefix, and alternatives come out branch-major.
   */
  lemma CssLocatorIsProduct(ls: seq<Locator>, split: Splitter)
    requires forall i :: 0 <= i < |ls| ==> CssPieceOf(ls[i], split).Success?
    ensures var ps := PiecesOf(ls, split);
            CssLocator(ls, split) == Success(Located(CssSelector,
              if AllSingle(ps) then Join(" ", Singles(ps)) else Join(", ", Product(ps))))
  {
    var ps := PiecesOf(ls, split);
    FoldKeepsInv(CssState([], []), [], ls, split);
    EmptyConcat(ps);
    var st := Fold(Corrected, CssState([], []), ls, split).value;
    InvOfEqual(st, [] + ps, ps);
    RenderOfInv(st, ps);
    assert CssLocator(ls, split) == Success(Located(CssSelector, Render(st)));
  }

  lemma EmptyConcat<T>(s: seq<T>)
    ensures [] + s == s
  {
  }

  /** The rendering of the accumulators after a build of the pieces `ps`. */
  lemma RenderOfInv(st: CssState, ps: seq<CssPiece>)
    requires Inv(st, ps)
    ensures Render(st) == if AllSingle(ps) then Join(" ", Singles(ps)) else Join(", ", Product(ps))
  {
  }

  // ---------------------------------------------------------------------------------------------
  // When the builder as written and the intended one agree

  /**
   * No comma step after the first meets repeated alternatives: whenever a locator with comma
   * branches follows alternatives already built, those alternatives are pairwise distinct.
   */
  predicate NoRepeatedAlternatives(ps: seq<CssPiece>) {
    forall k :: 0 < k < |ps| && ps[k].Branches? && !AllSingle(ps[..k]) ==> Distinct(Product(ps[..k]))
  }

  /** The number of pieces with comma branches. */
  function BranchCount(ps: seq<CssPiece>): nat
    decreases |ps|
  {
    if |ps| == 0 then 0 else (if ps[|ps| - 1].Branches? then 1 else 0) + BranchCount(ps[..|ps| - 1])
  }

  /**
   * Both builders fail alike: with the error of the first locator that raises. Only a successful
   * build can tell them apart.
   */
  lemma AsWrittenFailsLikeCorrected(ls: seq<Locator>, split: Splitter)
    ensures CssLocatorAsWritten(ls, split).Failure? <==> CssLocator(ls, split).Failure?
    ensures CssLocatorAsWritten(ls, split).Failure? ==> CssLocatorAsWritten(ls, split) == CssLocator(ls, split)
  {
    var a, c := CssLocatorAsWritten(ls, split), CssLocator(ls, split);
    if a.Failure? {
      var i :| 0 <= i < |ls| && CssPieceOf(ls[i], split) == Failure(a.error)
               && forall j :: 0 <= j < i ==> CssPieceOf(ls[j], split).Success?;
      var k :| 0 <= k < |ls| && CssPieceOf(ls[k], split) == Failure(c.error)
               && forall j :: 0 <= j < k ==> CssPieceOf(ls[j], split).Success?;
      assert i == k;
    }
  }

  /**
   * The builder as written computes the intended cross product whenever no comma step after the
   * first meets repeated alternatives; `RepeatedAlternativeSurvives` shows the condition matters.
   */
  lemma AsWrittenAgreesWithoutRepeats(ls: seq<Locator>, split: Splitter)
    requires forall i :: 0 <= i < |ls| ==> CssPieceOf(ls[i], split).Success?
    requires NoRepeatedAlternatives(PiecesOf(ls, split))
    ensures CssLocatorAsWritten(ls, split) == CssLocator(ls, split)
  {
    EmptyConcat(PiecesOf(ls, split));
    FoldAgrees(CssState([], []), [], ls, split);
  }

  lemma {:induction false} FoldAgrees(st: CssState, done: seq<CssPiece>, ls: seq<Locator>, split: Splitter)
    requires forall i :: 0 <= i < |ls| ==> CssPieceOf(ls[i], split).Success?
    requires Inv(st, done) && WellFormed(done)
    requires NoRepeatedAlternatives(done + PiecesOf(ls, split))
    ensures Fold(AsWritten, st, ls, split) == Fold(Corrected, st, ls, split)
    decreases |ls|
  {
    if |ls| > 0 {
      var p := CssPieceOf(ls[0], split).value;
      var all := done + PiecesOf(ls, split);
      PiecesOfCons(ls, split);
      assert all[..|done|] == done;
      assert all[|done|] == p;
      if p.Branches? && |st.alts| > 0 {
        assert !AllSingle(done);
        assert Distinct(st.alts);
        StepAgreesOnDistinct(st, p);
      }
      assert Step(AsWritten, st, p) == Step(Corrected, st, p);
      WellFormedSnoc(done, p);
      StepKeepsInv(st, done, p);
      ConsAssoc(done, p, PiecesOf(ls[1..], split));
      FoldAgrees(Step(Corrected, st, p), done + [p], ls[1..], split);
      FoldCons(AsWritten, st, ls, split);
      FoldCons(Corrected, st, ls, split);
    }
  }

  /** With at most one locator carrying comma branches, the builder as written is the intended one. */
  lemma AtMostOneCommaAgrees(ls: seq<Locator>, split: Splitter)
    requires forall i :: 0 <= i < |ls| ==> CssPieceOf(ls[i], split).Success?
    requires BranchCount(PiecesOf(ls, split)) <= 1
    ensures CssLocatorAsWritten(ls, split) == CssLocator(ls, split)
  {
    var ps := PiecesOf(ls, split);
    forall k | 0 < k < |ps|
      ensures !(ps[k].Branches? && !AllSingle(ps[..k]))
    {
      if ps[k].Branches? && !AllSingle(ps[..k]) {
        var j :| 0 <= j < k && ps[..k][j].Branches?;
        TwoBranchesCount(ps, j, k);
        assert false;
      }
    }
    AsWrittenAgreesWithoutRepeats(ls, split);
  }

  /** Without comma branches anywhere, the builder as written is the intended one. */
  lemma CommaFreeAgrees(ls: seq<Locator>, split: Splitter)
    requires forall i :: 0 <= i < |ls| ==> CssPieceOf(ls[i], split).Success? && CssPieceOf(ls[i], split).value.Single?
    ensures CssLocatorAsWritten(ls, split) == CssLocator(ls, split)
  {
    AsWrittenAgreesWithoutRepeats(ls, split);
  }

  /** Two pieces with comma branches count twice. */
  lemma {:induction false} TwoBranchesCount(ps: seq<CssPiece>, j: nat, k: nat)
    requires j < k < |ps| && ps[j].Branches? && ps[k].Branches?
    ensures BranchCount(ps) >= 2
    decreases |ps|
  {
    var init := ps[..|ps| - 1];
    if k == |ps| - 1 {
      OneBranchCounts(init, j);
    } else {
      assert init[j] == ps[j] && init[k] == ps[k];
      TwoBranchesCount(init, j, k);
    }
  }

  lemma {:induction false} OneBranchCounts(ps: seq<CssPiece>, j: nat)
    requires j < |ps| && ps[j].Branches?
    ensures BranchCount(ps) >= 1
    decreases |ps|
  {
    if j < |ps| - 1 {
      assert ps[..|ps| - 1][j] == ps[j];
      OneBranchCounts(ps[..|ps| - 1], j);
    }
  }

  /** Appending a comma-free locator to a comma-free list appends its part after one space. */
  lemma CssAppendSingle(ls: seq<Locator>, l: Locator, split: Splitter)
    requires |ls| > 0
    requires forall i :: 0 <= i < |ls| ==> CssPieceOf(ls[i], split).Success? && CssPieceOf(ls[i], split).value.Single?
    requires CssPieceOf(l, split).Success? && CssPieceOf(l, split).value.Single?
    ensures CssLocator(ls + [l], split).Success? && CssLocator(ls, split).Success?
    ensures CssLocator(ls + [l], split).value.value
            == CssLocator(ls, split).value.value + " " + CssPieceOf(l, split).value.css
    ensures CssLocatorAsWritten(ls + [l], split) == CssLocator(ls + [l], split)
    ensures CssLocatorAsWritten(ls, split) == CssLocator(ls, split)
  {
    var both := ls + [l];
    AppendKeepsPieces(ls, l, split);
    assert forall i :: 0 <= i < |both| ==> CssPieceOf(both[i], split).value.Single? by {
      forall i | 0 <= i < |both| ensures CssPieceOf(both[i], split).value.Single? {
        if i < |ls| { assert both[i] == ls[i]; }
      }
    }
    CommaFreeAgrees(ls, split);
    CommaFreeAgrees(both, split);
    CssLocatorIsProduct(ls, split);
    CssLocatorIsProduct(both, split);
    var ps := PiecesOf(ls, split);
    var p := CssPieceOf(l, split).value;
    PiecesOfSnoc(ls, l, split);
    SinglesSnoc(ps, p);
    JoinSnoc(" ", Singles(ps), p.css);
  }

  lemma AppendKeepsPieces(ls: seq<Locator>, l: Locator, split: Splitter)
    requires forall i :: 0 <= i < |ls| ==> CssPieceOf(ls[i], split).Success?
    requires CssPieceOf(l, split).Success?
    ensures forall i :: 0 <= i < |ls + [l]| ==> CssPieceOf((ls + [l])[i], split).Success?
  {
    forall i | 0 <= i < |ls + [l]|
      ensures CssPieceOf((ls + [l])[i], split).Success?
    {
      if i < |ls| {
        assert (ls + [l])[i] == ls[i];
      }
    }
  }

  lemma PiecesOfSnoc(ls: seq<Locator>, l: Locator, split: Splitter)
    requires forall i :: 0 <= i < |ls| ==> CssPieceOf(ls[i], split).Success?
    requires CssPieceOf(l, split).Success?
    requires forall i :: 0 <= i < |ls + [l]| ==> CssPieceOf((ls + [l])[i], split).Success?
    ensures PiecesOf(ls + [l], split) == PiecesOf(ls, split) + [CssPieceOf(l, split).value]
  {
    var both := ls + [l];
    assert forall i :: 0 <= i < |ls| ==> both[i] == ls[i];
  }

  lemma SinglesSnoc(ps: seq<CssPiece>, p: CssPiece)
    requires AllSingle(ps) && p.Single?
    ensures AllSingle(ps + [p])
    ensures Singles(ps + [p]) == Singles(ps) + [p.css]
  {
    assert forall i :: 0 <= i < |ps| ==> (ps + [p])[i] == ps[i];
  }

  /**
   * A splitter that splits at every comma. On selectors without quotes or brackets, such as the
   * ones below, the builder's regular expression does the same.
   */
  function CommaSplit(s: string): seq<string> {
    Split(s, ',')
  }

  lemma CommaSplitTwo(x: string, y: string)
    requires ',' !in x && ',' !in y
    ensures CommaSplit(x + "," + y) == [x, y]
  {
    SplitPrefix(x, ',', y);
    SplitNoSeparator(y, ',');
  }

  lemma StripPair(x: string, y: string, y': string)
    requires |x| > 0 && x[0] != ' ' && y == " " + y'
    ensures StripBranches([x, y]) == Success([x, y'])
  {
    var r := StripBranches([x, y]);
    assert r.Success?;
    assert StripOne(y) == y';
    assert r.value == [x, y'];
  }

  /** Two locators fold by two steps. */
  lemma FoldTwo(v: Variant, l0: Locator, l1: Locator, split: Splitter, p0: CssPiece, p1: CssPiece)
    requires CssPieceOf(l0, split) == Success(p0) && CssPieceOf(l1, split) == Success(p1)
    ensures BuildCss(v, [l0, l1], split)
            == Success(Located(CssSelector, Render(Step(v, Step(v, CssState([], []), p0), p1))))
  {
    var ls := [l0, l1];
    assert ls[1..] == [l1];
    assert ls[1..][1..] == [];
    var st1 := Step(v, CssState([], []), p0);
    var st2 := Step(v, st1, p1);
    assert Fold(v, st1, [l1], split) == Fold(v, st2, [], split);
    assert Fold(v, CssState([], []), ls, split) == Success(st2);
  }

  lemma PrefixExamplePieces()
    ensures CssPieceOf(Bare(".a"), CommaSplit) == Success(Single(".a"))
    ensures CssPieceOf(Bare("b, c"), CommaSplit) == Success(Branches(["b", "c"]))
  {
    SplitNoSeparator(".a", ',');
    CommaSplitTwo("b", " c");
    assert "b" + "," + " c" == "b, c";
    StripPair("b", " c", "c");
  }

  lemma PrefixExampleRender()
    ensures Render(Step(Corrected, Step(Corrected, CssState([], []), Single(".a")), Branches(["b", "c"])))
            == ".a b, .a c"
    ensures Step(AsWritten, Step(AsWritten, CssState([], []), Single(".a")), Branches(["b", "c"]))
            == Step(Corrected, Step(Corrected, CssState([], []), Single(".a")), Branches(["b", "c"]))
  {
    var st1 := Step(Corrected, CssState([], []), Single(".a"));
    assert st1 == CssState([".a"], []);
    var st2 := Step(Corrected, st1, Branches(["b", "c"]));
    assert Join(" ", [".a"]) == ".a";
    assert Leading([".a"], "b") == ".a b";
    assert Leading([".a"], "c") == ".a c";
    assert st2.alts == [".a b", ".a c"];
    assert [".a b", ".a c"][1..] == [".a c"];
    assert Join(", ", [".a b", ".a c"]) == ".a b" + ", " + ".a c";
  }

  /**
   * `[".a", "b, c"]` composes to `.a b, .a c` in the builder as written (and in the intended one):
   * each alternative keeps the whole prefix.
   */
  lemma BranchesKeepPrefixExample()
    ensures CssLocatorAsWritten([Bare(".a"), Bare("b, c")], CommaSplit) == Success(Located(CssSelector, ".a b, .a c"))
    ensures CssLocator([Bare(".a"), Bare("b, c")], CommaSplit) == Success(Located(CssSelector, ".a b, .a c"))
  {
    PrefixExamplePieces();
    FoldTwo(AsWritten, Bare(".a"), Bare("b, c"), CommaSplit, Single(".a"), Branches(["b", "c"]));
    FoldTwo(Corrected, Bare(".a"), Bare("b, c"), CommaSplit, Single(".a"), Branches(["b", "c"]));
    PrefixExampleRender();
  }

  lemma RepeatedAlternativePieces()
    ensures CssPieceOf(Bare("a, a"), CommaSplit) == Success(Branches(["a", "a"]))
    ensures CssPieceOf(Bare("b, c"), CommaSplit) == Success(Branches(["b", "c"]))
  {
    CommaSplitTwo("a", " a");
    CommaSplitTwo("b", " c");
    assert "a" + "," + " a" == "a, a";
    assert "b" + "," + " c" == "b, c";
    StripPair("a", " a", "a");
    StripPair("b", " c", "c");
  }

  lemma RepeatedAlternativeCross()
    ensures Cross(["a", "a"], ["b", "c"]) == ["a b", "a b", "a c", "a c"]
  {
    var alts := ["a", "a"];
    assert ["b", "c"][1..] == ["c"];
    assert ["c"][1..] == [];
    assert "a" + " " + "c" == "a c" && "a" + " " + "b" == "a b";
    var sc, sb := Suffix(alts, "c"), Suffix(alts, "b");
    assert sc[0] == "a c" && sc[1] == "a c";
    assert sb[0] == "a b" && sb[1] == "a b";
    assert sc == ["a c", "a c"];
    assert sb == ["a b", "a b"];
    assert Cross(alts, ["c"]) == Suffix(alts, "c") + Cross(alts, []);
    assert Cross(alts, ["c"]) == ["a c", "a c"];
    assert Cross(alts, ["b", "c"]) == Suffix(alts, "b") + Cross(alts, ["c"]);
  }

  lemma RepeatedAlternativeDrop(rest: seq<string>)
    ensures Drop(["a", "a"] + rest, ToSet(["a", "a"])) == ["a"] + rest
  {
    assert ToSet(["a", "a"]) == {"a"};
    var whole := ["a", "a"] + rest;
    assert whole[0] == "a" && whole[1..] == ["a"] + rest;
    assert {"a"} - {"a"} == {};
    assert Drop(whole, {"a"}) == Drop(["a"] + rest, {});
    DropNothing(["a"] + rest);
  }

  lemma RepeatedAlternativeFirstStep(v: Variant)
    ensures Step(v, CssState([], []), Branches(["a", "a"])) == CssState([], ["a", "a"])
  {
    assert FirstAlternatives([], ["a", "a"]) == ["a", "a"];
  }

  lemma RepeatedAlternativeStepsAsWritten()
    ensures Render(Step(AsWritten, Step(AsWritten, CssState([], []), Branches(["a", "a"])), Branches(["b", "c"])))
            == "a, a b, a b, a c, a c"
  {
    RepeatedAlternativeFirstStep(AsWritten);
    var cross := ["a b", "a b", "a c", "a c"];
    RepeatedAlternativeSecondStep();
    JoinFour(", ", "a b", "a b", "a c", "a c");
    JoinCons(", ", "a", cross);
  }

  lemma RepeatedAlternativeSecondStep()
    ensures Step(AsWritten, CssState([], ["a", "a"]), Branches(["b", "c"])).alts
            == ["a"] + ["a b", "a b", "a c", "a c"]
  {
    var cross := ["a b", "a b", "a c", "a c"];
    RepeatedAlternativeCross();
    RepeatedAlternativeDrop(cross);
  }

  lemma RepeatedAlternativeStepsCorrected()
    ensures Render(Step(Corrected, Step(Corrected, CssState([], []), Branches(["a", "a"])), Branches(["b", "c"])))
            == "a b, a b, a c, a c"
  {
    RepeatedAlternativeFirstStep(Corrected);
    RepeatedAlternativeCross();
    JoinFour(", ", "a b", "a b", "a c", "a c");
  }

  /**
   * As written, a repeated alternative survives the next comma step unextended: `["a, a", "b, c"]`
   * composes to `a, a b, a b, a c, a c`, where the product is `a b, a b, a c, a c`.
   */
  lemma RepeatedAlternativeSurvives()
    ensures CssLocatorAsWritten([Bare("a, a"), Bare("b, c")], CommaSplit)
            == Success(Located(CssSelector, "a, a b, a b, a c, a c"))
    ensures CssLocator([Bare("a, a"), Bare("b, c")], CommaSplit)
            == Success(Located(CssSelector, "a b, a b, a c, a c"))
  {
    RepeatedAlternativePieces();
    var p0, p1 := Branches(["a", "a"]), Branches(["b", "c"]);
    FoldTwo(AsWritten, Bare("a, a"), Bare("b, c"), CommaSplit, p0, p1);
    FoldTwo(Corrected, Bare("a, a"), Bare("b, c"), CommaSplit, p0, p1);
    RepeatedAlternativeStepsAsWritten();
    RepeatedAlternativeStepsCorrected();
  }

  lemma JoinFour(sep: string, a: string, b: string, c: string, d: string)
    ensures Join(sep, [a, b, c, d]) == a + sep + b + sep + c + sep + d
  {
    assert [a, b, c, d][1..] == [b, c, d];
    assert [b, c, d][1..] == [c, d];
    assert [c, d][1..] == [d];
    assert Join(sep, [c, d]) == c + sep + d;
    assert Join(sep, [b, c, d]) == b + sep + (c + sep + d);
  }

  // ---------------------------------------------------------------------------------------------
  // XPath

  /**
   * The XPath rendering of one locator (BasicComponent.py:994-1012). A bare string is indexed as
   * if it were a tuple: its first character is the strategy (never a `By` constant) and its
   * second the value; `None` cannot be indexed at all.
   */
  function XPathFragment(l: Locator): (r: Result<string, Error>)
    ensures (l.Located? && l.strategy == CssSelector) || l.NoLocator? ==> r == Failure(TypeError)
    ensures l.Located? && l.strategy == XPath ==> r == Success(l.value)
    ensures l.Bare? ==> (r.Failure? <==> |l.css| < 2)
    ensures l.Bare? && r.Failure? ==> r.error == IndexError
    ensures l.Bare? && r.Success? ==> r.value == [l.css[1]]
    ensures l.Located? && l.strategy == Id ==> r == Success("//*[@id=\"" + l.value + "\"]")
    ensures l.Located? && l.strategy == ClassName
            ==> r == Success("//*[contains(concat(\" \", normalize-space(@class), \" \"),\"" + l.value + "\")]")
    ensures l.Located? && l.strategy == Name ==> r == Success("//*[@name=\"" + l.value + "\"]")
    ensures l.Located? && l.strategy == LinkText ==> r == Success("//a[normalize-space()=\"" + l.value + "\"]")
    ensures l.Located? && l.strategy == PartialLinkText
            ==> r == Success("//a[contains(normalize-space(),\"" + l.value + "\")]")
    ensures l.Located? && l.strategy == TagName ==> r == Success("//" + l.value)
  {
    match l
    case NoLocator => Failure(TypeError)
    case Bare(s) => if |s| < 2 then Failure(IndexError) else Success([s[1]])
    case Located(strategy, v) =>
      match strategy
      case CssSelector => Failure(TypeError)
      case Id => Success("//*[@id=\"" + v + "\"]")
      case ClassName => Success("//*[contains(concat(\" \", normalize-space(@class), \" \"),\"" + v + "\")]")
      case Name => Success("//*[@name=\"" + v + "\"]")
      case LinkText => Success("//a[normalize-space()=\"" + v + "\"]")
      case PartialLinkText => Success("//a[contains(normalize-space(),\"" + v + "\")]")
      case TagName => Success("//" + v)
      case XPath => Success(v)
  }

  /** `"".join(xpath_list)`: the fragments in order, with no separator (`XPathJoinStopsAtFirstError`). */
  function XPathJoin(ls: seq<Locator>): Result<string, Error>
    decreases |ls|
  {
    if |ls| == 0 then Success("")
    else
      var f :- XPathFragment(ls[0]);
      var rest :- XPathJoin(ls[1..]);
      Success(f + rest)
  }

  /** The join goes through exactly when every fragment converts; otherwise the first error escapes. */
  lemma {:induction false} XPathJoinStopsAtFirstError(ls: seq<Locator>)
    ensures XPathJoin(ls).Success? <==> forall i :: 0 <= i < |ls| ==> XPathFragment(ls[i]).Success?
    ensures XPathJoin(ls).Failure? ==>
              exists i :: 0 <= i < |ls| && XPathFragment(ls[i]) == Failure(XPathJoin(ls).error)
                        && forall j :: 0 <= j < i ==> XPathFragment(ls[j]).Success?
    decreases |ls|
  {
    if |ls| > 0 && XPathFragment(ls[0]).Success? {
      XPathJoinStopsAtFirstError(ls[1..]);
      assert forall i :: 1 <= i < |ls| ==> ls[1..][i - 1] == ls[i];
      if XPathJoin(ls).Failure? {
        var e := XPathJoin(ls).error;
        var i :| 0 <= i < |ls[1..]| && XPathFragment(ls[1..][i]) == Failure(e)
                 && forall j :: 0 <= j < i ==> XPathFragment(ls[1..][j]).Success?;
        assert XPathFragment(ls[i + 1]) == Failure(e);
        assert forall j :: 0 <= j < i + 1 ==> XPathFragment(ls[j]).Success?;
      }
    }
  }

  /** `get_xpath_locator`: the concatenated fragments, tagged XPATH; a CSS_SELECTOR locator raises TypeError. */
  function XPathLocator(ls: seq<Locator>): (r: Result<Locator, Error>)
    ensures r.Success? <==> forall i :: 0 <= i < |ls| ==> XPathFragment(ls[i]).Success?
    ensures r.Success? ==> r.value.Located? && r.value.strategy == XPath
    ensures r.Failure? ==>
              exists i :: 0 <= i < |ls| && XPathFragment(ls[i]) == Failure(r.error)
                        && forall j :: 0 <= j < i ==> XPathFragment(ls[j]).Success?
  {
    XPathJoinStopsAtFirstError(ls);
    var s :- XPathJoin(ls);
    Success(Located(XPath, s))
  }

  lemma {:induction false} XPathJoinConcat(a: seq<Locator>, b: seq<Locator>)
    requires XPathJoin(a).Success? && XPathJoin(b).Success?
    ensures XPathJoin(a + b) == Success(XPathJoin(a).value + XPathJoin(b).value)
    decreases |a|
  {
    if |a| == 0 {
      assert a + b == b;
      EmptyConcat(XPathJoin(b).value);
    } else {
      var ab := a + b;
      assert ab[0] == a[0] && ab[1..] == a[1..] + b;
      var f := XPathFragment(a[0]).value;
      XPathJoinConcat(a[1..], b);
      var x, y := XPathJoin(a[1..]).value, XPathJoin(b).value;
      assert XPathJoin(ab) == Success(f + (x + y));
      assert XPathJoin(a) == Success(f + x);
      ConcatAssoc(f, x, y);
    }
  }

  lemma ConcatAssoc<T>(a: seq<T>, b: seq<T>, c: seq<T>)
    ensures a + (b + c) == (a + b) + c
  {
  }

  /** The XPath of a concatenated list is the concatenation of the two XPaths. */
  lemma XPathConcat(a: seq<Locator>, b: seq<Locator>)
    requires XPathLocator(a).Success? && XPathLocator(b).Success?
    ensures XPathLocator(a + b).Success?
    ensures XPathLocator(a + b).value.value == XPathLocator(a).value.value + XPathLocator(b).value.value
  {
    XPathJoinConcat(a, b);
  }
}
