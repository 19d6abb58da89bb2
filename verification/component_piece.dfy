/**
 * `ComponentPiece` and `ComponentCollection` (Components/BasicComponent.py:29-130, 429-436,
 * 587-597): a piece is an immutable descriptor of one element, its locator list inherited from
 * its parent; a collection memoises pieces by their formatted locator.
 */
module ComponentPieces {
  import opened Wrappers
  import opened Failures
  import opened Locators
  import LocatorBuilder

  /** The default `timeout` of `ComponentPiece.__init__` and `ComponentCollection.__init__`. */
  const DefaultTimeout: real := 10.0

  /**
   * `_update_locator_list`: a copy of a non-empty parent list followed by the own locator when
   * that is truthy; with an empty (or missing) parent list, exactly `[own]`.
   */
  function LocatorList(parent: seq<Locator>, own: Locator): (r: seq<Locator>)
    ensures |r| > 0
    ensures |parent| > 0 ==> parent <= r && |r| <= |parent| + 1
  {
    if |parent| > 0 then parent + (if Truthy(own) then [own] else []) else [own]
  }

  /**
   * A component piece. The parent list is held by value, so the copy `__init__` makes of it
   * (`parent_locator_list.copy()`) is implicit: nothing done to the caller's list afterwards can
   * reach it. The driver, poll frequency and description do not affect any modelled behaviour.
   */
  datatype Piece = Piece(id: nat, own: Locator, parent: seq<Locator>, timeout: real) {

    /** `locator_list`. */
    function Chain(): seq<Locator> {
      LocatorList(parent, own)
    }
  }

  /** `set_locator`: a new own locator, the locator list recomputed by the same rule. */
  function SetLocator(p: Piece, l: Locator): (q: Piece)
    ensures q.id == p.id && q.parent == p.parent && q.timeout == p.timeout
    ensures q.own == l
  {
    p.(own := l)
  }

  /** The locator list keeps the parent's entries in front and the own locator last, when it counts. */
  lemma LocatorListShape(parent: seq<Locator>, own: Locator)
    ensures |parent| > 0 && Truthy(own) ==> LocatorList(parent, own) == parent + [own]
    ensures |parent| > 0 && !Truthy(own) ==> LocatorList(parent, own) == parent
    ensures |parent| == 0 ==> LocatorList(parent, own) == [own]
    ensures own in LocatorList(parent, own) <==> |parent| == 0 || Truthy(own) || own in parent
  {
  }

  /** Setting a locator twice is the same as setting the second one; the parent list never changes. */
  lemma SetLocatorLastWins(p: Piece, a: Locator, b: Locator)
    ensures SetLocator(SetLocator(p, a), b) == SetLocator(p, b)
    ensures SetLocator(p, b).Chain() == LocatorList(p.parent, b)
  {
  }

  /**
   * A piece built under a parent piece composes, in CSS, to the parent's selector followed by its
   * own part: the descendant combinator of the W3C Selectors Level 3, section 8.1. Without comma
   * branches the builder as written and the intended one agree.
   */
  lemma ChildSelectorExtendsParent(parent: Piece, child: Piece, split: LocatorBuilder.Splitter)
    requires child.parent == parent.Chain() && Truthy(child.own)
    requires forall i :: 0 <= i < |parent.Chain()| ==>
               LocatorBuilder.CssPieceOf(parent.Chain()[i], split).Success?
               && LocatorBuilder.CssPieceOf(parent.Chain()[i], split).value.Single?
    requires LocatorBuilder.CssPieceOf(child.own, split).Success?
             && LocatorBuilder.CssPieceOf(child.own, split).value.Single?
    ensures LocatorBuilder.CssLocatorAsWritten(child.Chain(), split).Success?
    ensures LocatorBuilder.CssLocatorAsWritten(child.Chain(), split).value.value
            == LocatorBuilder.CssLocatorAsWritten(parent.Chain(), split).value.value + " "
               + LocatorBuilder.CssPieceOf(child.own, split).value.css
    ensures LocatorBuilder.CssLocator(child.Chain(), split) == LocatorBuilder.CssLocatorAsWritten(child.Chain(), split)
  {
    assert child.Chain() == parent.Chain() + [child.own];
    LocatorBuilder.CssAppendSingle(parent.Chain(), child.own, split);
  }

  // ---------------------------------------------------------------------------------------------
  // ComponentCollection

  /**
   * `template.format(*args)` for templates whose replacement fields are all `{}`: each field takes
   * the next argument (already converted with `str`); too few arguments raise IndexError and
   * surplus arguments are ignored.
   */
  function Format(template: string, args: seq<string>): (r: Result<string, Error>)
    ensures r.Success? <==> |args| >= Fields(template)
    ensures r.Failure? ==> r.error == IndexError
    decreases |template|
  {
    if |template| == 0 then Success("")
    else if |template| >= 2 && template[0] == '{' && template[1] == '}' then
      if |args| == 0 then Failure(IndexError)
      else
        var rest :- Format(template[2..], args[1..]);
        Success(args[0] + rest)
    else
      var rest :- Format(template[1..], args);
      Success([template[0]] + rest)
  }

  /** The number of `{}` replacement fields of a template. */
  function Fields(template: string): nat
    decreases |template|
  {
    if |template| == 0 then 0
    else if |template| >= 2 && template[0] == '{' && template[1] == '}' then 1 + Fields(template[2..])
    else Fields(template[1..])
  }

  /** Only the first `Fields(template)` arguments matter. */
  lemma {:induction false} FormatIgnoresSurplus(template: string, args: seq<string>, extra: seq<string>)
    requires Format(template, args).Success?
    ensures Format(template, args + extra) == Format(template, args)
    decreases |template|
  {
    if |template| == 0 {
    } else if |template| >= 2 && template[0] == '{' && template[1] == '}' {
      assert (args + extra)[1..] == args[1..] + extra;
      FormatIgnoresSurplus(template[2..], args[1..], extra);
    } else {
      FormatIgnoresSurplus(template[1..], args, extra);
    }
  }

  /**
   * A collection: the constructor's settings, the pieces built so far keyed by their locator
   * tuple, and the identity the next constructed piece receives.
   */
  datatype Collection = Collection(
    strategy: By, template: string, parent: seq<Locator>, timeout: real,
    entries: map<Locator, Piece>, nextId: nat)

  /** Each entry is the piece built for its key, and no two entries share an identity. */
  ghost predicate Valid(c: Collection) {
    && (forall k :: k in c.entries ==>
          c.entries[k].own == k && c.entries[k].parent == c.parent && c.entries[k].id < c.nextId)
    && (forall k1, k2 :: k1 in c.entries && k2 in c.entries && k1 != k2 ==>
          c.entries[k1].id != c.entries[k2].id)
  }

  function NewCollection(strategy: By, template: string, parent: seq<Locator>, timeout: real): (c: Collection)
    ensures Valid(c) && c.entries == map[]
  {
    Collection(strategy, template, parent, timeout, map[], 0)
  }

  /**
   * `ComponentCollection.get`: the cached piece for `(by, template.format(*args))`, or a new one
   * built with the collection's settings and stored under that key.
   */
  function Get(c: Collection, args: seq<string>): (r: Result<(Collection, Piece), Error>)
    ensures r.Success? <==> Format(c.template, args).Success?
    ensures r.Success? ==>
              var key := Located(c.strategy, Format(c.template, args).value);
              && r.value.0.entries == c.entries[key := r.value.1]
              && (key in c.entries ==> r.value == (c, c.entries[key]))
              && (key !in c.entries ==>
                    r.value.1.id == c.nextId && r.value.0.nextId == c.nextId + 1
                    && r.value.1.parent == c.parent && r.value.1.timeout == c.timeout
                    && |r.value.0.entries| == |c.entries| + 1)
    ensures Valid(c) && r.Success? ==>
              Valid(r.value.0) && r.value.1.own == Located(c.strategy, Format(c.template, args).value)
  {
    var formatted :- Format(c.template, args);
    var key := Located(c.strategy, formatted);
    if key in c.entries then
      Success((c, c.entries[key]))
    else
      var p := Piece(c.nextId, key, c.parent, c.timeout);
      Success((c.(entries := c.entries[key := p], nextId := c.nextId + 1), p))
  }

  /** Two lookups whose arguments format alike yield the identical piece, and the second adds nothing. */
  lemma SameFormattedSameInstance(c: Collection, args1: seq<string>, args2: seq<string>)
    requires Get(c, args1).Success?
    requires Format(c.template, args2) == Format(c.template, args1)
    ensures Get(Get(c, args1).value.0, args2) == Success(Get(c, args1).value)
  {
  }

  /** Pieces the collection hands out for different formatted locators are different instances. */
  lemma DifferentKeysDifferentInstances(c: Collection, args1: seq<string>, args2: seq<string>)
    requires Valid(c)
    requires Get(c, args1).Success?
    requires Format(c.template, args2).Success?
    requires Format(c.template, args2) != Format(c.template, args1)
    ensures Get(Get(c, args1).value.0, args2).Success?
    ensures Get(Get(c, args1).value.0, args2).value.1.id != Get(c, args1).value.1.id
  {
    var c1 := Get(c, args1).value.0;
    var k1 := Located(c.strategy, Format(c.template, args1).value);
    var k2 := Located(c.strategy, Format(c.template, args2).value);
    assert k1 in c1.entries && k1 != k2;
  }

  /** `"x{}"` formats `["a"]` and `["a", "b"]` alike, so both lookups share one piece. */
  lemma SurplusArgumentsShareInstance(c: Collection)
    requires c.template == "x{}"
    ensures Get(c, ["a"]).Success?
    ensures Get(Get(c, ["a"]).value.0, ["a", "b"]) == Success(Get(c, ["a"]).value)
  {
    assert Fields("x{}") == 1 by {
      assert "x{}"[1..] == "{}";
      assert "{}"[2..] == "";
    }
    FormatIgnoresSurplus("x{}", ["a"], ["b"]);
    assert ["a"] + ["b"] == ["a", "b"];
    SameFormattedSameInstance(c, ["a"], ["a", "b"]);
  }
}
