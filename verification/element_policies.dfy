/**
 * Element policies shared by every component (Components/BasicComponent.py): the retry on stale
 * element references, the rectangle geometry and the text wait. The browser is replaced by traces:
 * what the n-th call of a decorated method yields, and what each poll of a wait observes.
 */
module ElementPolicies {
  import opened Wrappers
  import opened Failures
  import opened Strings

  // ---------------------------------------------------------------------------------------------
  // retry_on_stale_element

  /** What one call of a decorated method does: return a value or raise. */
  datatype Outcome<T> = Returned(value: T) | Raised(error: Error)

  /** The decorator's default `retry_attempts`. */
  const DefaultRetryAttempts: int := 3

  predicate IsStale<T>(o: Outcome<T>) {
    o.Raised? && o.error == StaleElement
  }

  /** How many calls the decorator makes at most: `range(retry_attempts)` plus the final one. */
  function CallBudget(retryAttempts: int): nat {
    if retryAttempts > 0 then retryAttempts + 1 else 1
  }

  /**
   * The decorated call: `call(n)` is what the n-th invocation yields. A stale reference is
   * swallowed and the call repeated, `retry_attempts` times; the final call's outcome, stale or
   * not, is the decorator's.
   */
  method RetryOnStale<T>(retryAttempts: int, call: nat -> Outcome<T>) returns (r: Outcome<T>, calls: nat)
    ensures 1 <= calls <= CallBudget(retryAttempts)
    ensures r == call(calls - 1)
    ensures forall i :: 0 <= i < calls - 1 ==> IsStale(call(i))
    ensures calls < CallBudget(retryAttempts) ==> !IsStale(r)
  {
    var attempt := 0;
    while attempt < retryAttempts
      invariant 0 <= attempt < CallBudget(retryAttempts)
      invariant forall i :: 0 <= i < attempt ==> IsStale(call(i))
    {
      var o := call(attempt);
      if !IsStale(o) {
        return o, attempt + 1;
      }
      attempt := attempt + 1;
    }
    r := call(attempt);
    calls := attempt + 1;
  }

  /** A stale outcome escapes only when every call in the budget went stale. */
  lemma StaleEscapesOnlyWhenAllStale<T>(retryAttempts: int, call: nat -> Outcome<T>, r: Outcome<T>, calls: nat)
    requires 1 <= calls <= CallBudget(retryAttempts)
    requires r == call(calls - 1)
    requires forall i :: 0 <= i < calls - 1 ==> IsStale(call(i))
    requires calls < CallBudget(retryAttempts) ==> !IsStale(r)
    ensures IsStale(r) <==> forall i :: 0 <= i < CallBudget(retryAttempts) ==> IsStale(call(i))
  {
    if IsStale(r) {
      assert calls == CallBudget(retryAttempts);
      forall i | 0 <= i < CallBudget(retryAttempts) ensures IsStale(call(i)) {
        if i == calls - 1 { assert call(i) == r; }
      }
    }
  }

  // ---------------------------------------------------------------------------------------------
  // Geometry

  /** A `WebElement.rect`. */
  datatype Rect = Rect(x: real, y: real, width: real, height: real)

  datatype Point = Point(x: real, y: real)

  /** `get_origin`: the upper-left corner. */
  function Origin(r: Rect): Point {
    Point(r.x, r.y)
  }

  /** `get_termination`: the bottom-right corner, the origin moved by the size. */
  function Termination(r: Rect): (p: Point)
    ensures p.x - Origin(r).x == r.width && p.y - Origin(r).y == r.height
  {
    Point(r.x + r.width, r.y + r.height)
  }

  /**
   * `boundary_collision`: strict overlap on both axes, so rectangles that only touch do not
   * collide. Stated through the corners: each rectangle starts before the other one ends.
   */
  function BoundaryCollision(a: Rect, b: Rect): (r: bool)
    ensures r <==> (Origin(a).x < Termination(b).x && Origin(b).x < Termination(a).x
                    && Origin(a).y < Termination(b).y && Origin(b).y < Termination(a).y)
  {
    a.x < b.x + b.width && a.x + a.width > b.x && a.y < b.y + b.height && a.y + a.height > b.y
  }

  /** A point strictly inside a rectangle. */
  predicate Inside(p: Point, r: Rect) {
    r.x < p.x < r.x + r.width && r.y < p.y < r.y + r.height
  }

  function Min(a: real, b: real): real { if a <= b then a else b }
  function Max(a: real, b: real): real { if a <= b then b else a }

  /**
   * For rectangles of positive size a collision is exactly a shared interior point: the relation
   * is symmetric, a rectangle collides with itself, and touching edges or corners never count.
   */
  lemma CollisionIsSharedInterior(a: Rect, b: Rect)
    requires a.width > 0.0 && a.height > 0.0 && b.width > 0.0 && b.height > 0.0
    ensures BoundaryCollision(a, b) <==> exists p: Point :: Inside(p, a) && Inside(p, b)
    ensures BoundaryCollision(a, b) <==> BoundaryCollision(b, a)
    ensures BoundaryCollision(a, a)
  {
    if BoundaryCollision(a, b) {
      var px := (Max(a.x, b.x) + Min(a.x + a.width, b.x + b.width)) / 2.0;
      var py := (Max(a.y, b.y) + Min(a.y + a.height, b.y + b.height)) / 2.0;
      assert Inside(Point(px, py), a) && Inside(Point(px, py), b);
    }
  }

  /** Side by side, sharing the edge x = 10: touching but not colliding. */
  lemma SharedEdgeIsNoCollision()
    ensures !BoundaryCollision(Rect(0.0, 0.0, 10.0, 10.0), Rect(10.0, 0.0, 10.0, 10.0))
    ensures BoundaryCollision(Rect(0.0, 0.0, 10.0, 10.0), Rect(9.5, 0.0, 10.0, 10.0))
  {
  }

  // ---------------------------------------------------------------------------------------------
  // wait_on_text_condition

  /** The conditions `compare_against_condition` knows, and any other one. */
  datatype TextCondition =
    | TextEquals | TextDoesNotEqual | TextContains | TextDoesNotContain
    | NumericEquals | NumericDoesNotEqual
    | OtherCondition

  /** What one poll observes: the element's text, no element at all, or a stale reference. */
  datatype Poll = Read(text: string) | NotFound | StaleRead

  /** The message of the TimeoutException raised for an element never found. */
  const NotFoundMessage: string := "Unable to locate element"

  /**
   * One comparison of `compare_against_condition`, given a comparand: whether the condition
   * holds of the text read; numeric conditions compare with every comma removed.
   */
  function Compare(cond: TextCondition, comparand: string, text: string): (r: Result<bool, Error>)
    ensures r.Failure? <==> cond == OtherCondition
    ensures r.Failure? ==> r.error == NotImplemented
    ensures cond == TextEquals ==> r == Success(comparand == text)
    ensures cond == TextDoesNotEqual ==> r == Success(comparand != text)
    ensures cond == TextContains ==> r == Success(exists i, j :: 0 <= i <= j <= |text| && text[i..j] == comparand)
    ensures cond == TextDoesNotContain ==> r == Success(!exists i, j :: 0 <= i <= j <= |text| && text[i..j] == comparand)
  {
    match cond
    case TextEquals => Success(comparand == text)
    case TextDoesNotEqual => Success(comparand != text)
    case TextContains =>
      SubstringIsSlice(comparand, text);
      Success(IsSubstring(comparand, text))
    case TextDoesNotContain =>
      SubstringIsSlice(comparand, text);
      Success(!IsSubstring(comparand, text))
    case NumericEquals => Success(RemoveChar(comparand, ',') == RemoveChar(text, ','))
    case NumericDoesNotEqual => Success(RemoveChar(comparand, ',') != RemoveChar(text, ','))
    case OtherCondition => Failure(NotImplemented)
  }

  /** The wait is over after reading `text`: a non-empty text without comparand, a met condition. */
  predicate Satisfied(comparand: Option<string>, cond: TextCondition, text: string) {
    match comparand
    case None => text != ""
    case Some(c) => Compare(cond, c, text) == Success(true)
  }

  /** The wait polls again after reading `text`. */
  predicate Continues(comparand: Option<string>, cond: TextCondition, text: string) {
    match comparand
    case None => text == ""
    case Some(c) => Compare(cond, c, text) == Success(false)
  }

  /** The polls before `j` all read a text that kept the wait going. */
  predicate KeptPolling(comparand: Option<string>, cond: TextCondition, polls: seq<Poll>, j: nat)
    requires j <= |polls|
  {
    forall k :: 0 <= k < j ==> polls[k].Read? && Continues(comparand, cond, polls[k].text)
  }

  /**
   * The polling loop from poll `i` on; `text` is the last text read and `seen` is
   * `present_then_removed`, which holds exactly when some poll has read a text.
   */
  function WaitFrom(comparand: Option<string>, cond: TextCondition, polls: seq<Poll>,
                    i: nat, text: string, seen: bool): (r: Result<string, Error>)
    requires i <= |polls| && |polls| > 0
    requires seen <==> i > 0
    requires i > 0 ==> polls[i - 1] == Read(text)
    requires KeptPolling(comparand, cond, polls, i)
    ensures r.Failure? && r.error.Timeout? <==> polls[0] == NotFound
    ensures r.Success? ==> exists j :: 0 <= j < |polls| && polls[j] == Read(r.value)
    ensures forall j :: (i <= j < |polls| && KeptPolling(comparand, cond, polls, j)
                         && polls[j].Read? && Satisfied(comparand, cond, polls[j].text))
                        ==> r == Success(polls[j].text)
    ensures KeptPolling(comparand, cond, polls, |polls|) ==> r == Success(polls[|polls| - 1].text)
    decreases |polls| - i
  {
    if i == |polls| then
      Success(text)
    else
      match polls[i]
      case NotFound =>
        if !seen then Failure(Timeout(NotFoundMessage)) else Success(text)
      case StaleRead =>
        Failure(StaleElement)
      case Read(t) =>
        if comparand.None? then
          if t != "" then Success(t) else WaitFrom(comparand, cond, polls, i + 1, t, true)
        else
          var ok :- Compare(cond, comparand.value, t);
          if ok then Success(t) else WaitFrom(comparand, cond, polls, i + 1, t, true)
  }

  /**
   * `wait_on_text_condition`: poll until the condition holds and return the text read last. An
   * element that is gone after having been read ends the wait with the last text; one never found
   * raises. A stale reference or an unhandled condition escapes. Without a comparand, the first
   * non-empty text ends the wait.
   */
  function WaitOnText(comparand: Option<string>, cond: TextCondition, polls: seq<Poll>): (r: Result<string, Error>)
    requires |polls| > 0
    ensures r.Failure? && r.error.Timeout? <==> polls[0] == NotFound
    ensures r.Success? ==> exists j :: 0 <= j < |polls| && polls[j] == Read(r.value)
    ensures forall j :: (0 <= j < |polls| && KeptPolling(comparand, cond, polls, j)
                         && polls[j].Read? && Satisfied(comparand, cond, polls[j].text))
                        ==> r == Success(polls[j].text)
    ensures KeptPolling(comparand, cond, polls, |polls|) ==> r == Success(polls[|polls| - 1].text)
    ensures forall j :: (0 < j < |polls| && KeptPolling(comparand, cond, polls, j) && polls[j] == NotFound)
                        ==> r == Success(polls[j - 1].text)
    ensures forall j :: (0 <= j < |polls| && KeptPolling(comparand, cond, polls, j) && polls[j] == StaleRead)
                        ==> r == Failure(StaleElement)
  {
    WaitFromEndsOnVanish(comparand, cond, polls, 0, "", false);
    WaitFromEndsOnStale(comparand, cond, polls, 0, "", false);
    WaitFrom(comparand, cond, polls, 0, "", false)
  }

  /**
   * From poll `i` on, an element gone after a read ends the wait with the text read just before,
   * when the polls up to it kept the wait going.
   */
  lemma {:induction false} WaitFromEndsOnVanish(comparand: Option<string>, cond: TextCondition,
                                                polls: seq<Poll>, i: nat, text: string, seen: bool)
    requires i <= |polls| && |polls| > 0
    requires seen <==> i > 0
    requires i > 0 ==> polls[i - 1] == Read(text)
    requires KeptPolling(comparand, cond, polls, i)
    ensures forall j :: (i <= j < |polls| && 0 < j && KeptPolling(comparand, cond, polls, j)
                         && polls[j] == NotFound)
                        ==> WaitFrom(comparand, cond, polls, i, text, seen) == Success(polls[j - 1].text)
    decreases |polls| - i
  {
    if i < |polls| && polls[i].Read? && Continues(comparand, cond, polls[i].text) {
      WaitFromEndsOnVanish(comparand, cond, polls, i + 1, polls[i].text, true);
    }
  }

  /** From poll `i` on, a stale reference met while the wait keeps going escapes. */
  lemma {:induction false} WaitFromEndsOnStale(comparand: Option<string>, cond: TextCondition,
                                               polls: seq<Poll>, i: nat, text: string, seen: bool)
    requires i <= |polls| && |polls| > 0
    requires seen <==> i > 0
    requires i > 0 ==> polls[i - 1] == Read(text)
    requires KeptPolling(comparand, cond, polls, i)
    ensures forall j :: (i <= j < |polls| && KeptPolling(comparand, cond, polls, j) && polls[j] == StaleRead)
                        ==> WaitFrom(comparand, cond, polls, i, text, seen) == Failure(StaleElement)
    decreases |polls| - i
  {
    if i < |polls| && polls[i].Read? && Continues(comparand, cond, polls[i].text) {
      WaitFromEndsOnStale(comparand, cond, polls, i + 1, polls[i].text, true);
    }
  }

  /** An unhandled condition raises at the first text read. */
  lemma UnhandledConditionRaises(comparand: string, polls: seq<Poll>)
    requires |polls| > 0 && polls[0].Read?
    ensures WaitOnText(Some(comparand), OtherCondition, polls) == Failure(NotImplemented)
  {
  }

  /**
   * A wait ends by success with a text that satisfies its condition exactly when such a text is
   * read before anything else stops the polling.
   */
  lemma {:induction false} SatisfiedIffReached(comparand: Option<string>, cond: TextCondition, polls: seq<Poll>)
    requires |polls| > 0
    ensures (WaitOnText(comparand, cond, polls).Success?
             && Satisfied(comparand, cond, WaitOnText(comparand, cond, polls).value))
            <==> exists j :: 0 <= j < |polls| && KeptPolling(comparand, cond, polls, j)
                             && polls[j].Read? && Satisfied(comparand, cond, polls[j].text)
  {
    var r := WaitOnText(comparand, cond, polls);
    if r.Success? && Satisfied(comparand, cond, r.value) {
      var j := FirstStop(comparand, cond, polls, 0);
      if j == |polls| {
        assert false;
      } else {
        StopDecides(comparand, cond, polls, j);
      }
    }
  }

  lemma ContinuesExcludesSatisfied(comparand: Option<string>, cond: TextCondition, text: string)
    requires Continues(comparand, cond, text)
    ensures !Satisfied(comparand, cond, text)
  {
  }

  /** The first poll, from `i` on, that does not keep the wait going (or `|polls|`). */
  function FirstStop(comparand: Option<string>, cond: TextCondition, polls: seq<Poll>, i: nat): (j: nat)
    requires i <= |polls|
    requires KeptPolling(comparand, cond, polls, i)
    ensures i <= j <= |polls|
    ensures KeptPolling(comparand, cond, polls, j)
    ensures j < |polls| ==> !(polls[j].Read? && Continues(comparand, cond, polls[j].text))
    decreases |polls| - i
  {
    if i == |polls| then i
    else if polls[i].Read? && Continues(comparand, cond, polls[i].text) then
      FirstStop(comparand, cond, polls, i + 1)
    else i
  }

  /**
   * Where the polling stops decides the outcome: at a satisfying read, that text; at anything else
   * the wait does not end with a satisfying text.
   */
  lemma StopDecides(comparand: Option<string>, cond: TextCondition, polls: seq<Poll>, j: nat)
    requires j < |polls|
    requires KeptPolling(comparand, cond, polls, j)
    requires !(polls[j].Read? && Continues(comparand, cond, polls[j].text))
    requires WaitOnText(comparand, cond, polls).Success?
    requires Satisfied(comparand, cond, WaitOnText(comparand, cond, polls).value)
    ensures polls[j].Read? && Satisfied(comparand, cond, polls[j].text)
  {
    if j == 0 {
      assert WaitOnText(comparand, cond, polls) == WaitFrom(comparand, cond, polls, 0, "", false);
      StopAt(comparand, cond, polls, 0, "", false);
    } else {
      assert WaitOnText(comparand, cond, polls) == WaitFrom(comparand, cond, polls, 0, "", false);
      Unroll(comparand, cond, polls, 0, j, "", false);
      StopAt(comparand, cond, polls, j, polls[j - 1].text, true);
    }
  }

  /** The loop passes over polls that keep it going without changing its outcome. */
  lemma {:induction false} Unroll(comparand: Option<string>, cond: TextCondition, polls: seq<Poll>,
                                  i: nat, j: nat, text: string, seen: bool)
    requires i <= j < |polls| && 0 < j
    requires seen <==> i > 0
    requires i > 0 ==> polls[i - 1] == Read(text)
    requires KeptPolling(comparand, cond, polls, j)
    ensures WaitFrom(comparand, cond, polls, i, text, seen)
            == WaitFrom(comparand, cond, polls, j, polls[j - 1].text, true)
    decreases j - i
  {
    if i < j {
      assert polls[i].Read? && Continues(comparand, cond, polls[i].text);
      if i + 1 < j {
        Unroll(comparand, cond, polls, i + 1, j, polls[i].text, true);
      }
    }
  }

  /** At a poll that stops the loop, only a satisfying read ends it with a satisfying text. */
  lemma StopAt(comparand: Option<string>, cond: TextCondition, polls: seq<Poll>, j: nat, text: string, seen: bool)
    requires j < |polls|
    requires seen <==> j > 0
    requires j > 0 ==> polls[j - 1] == Read(text)
    requires KeptPolling(comparand, cond, polls, j)
    requires !(polls[j].Read? && Continues(comparand, cond, polls[j].text))
    requires WaitFrom(comparand, cond, polls, j, text, seen).Success?
    requires Satisfied(comparand, cond, WaitFrom(comparand, cond, polls, j, text, seen).value)
    ensures polls[j].Read? && Satisfied(comparand, cond, polls[j].text)
  {
    if polls[j] == NotFound {
      assert j > 0;
      assert Continues(comparand, cond, text);
      ContinuesExcludesSatisfied(comparand, cond, text);
    }
  }
}
