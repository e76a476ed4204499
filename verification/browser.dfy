/**
 * The browser as the checkout helpers see it: a snapshot of the rendered page
 * in which every CSS selector is an opaque key. Each WebDriver call is a
 * probe that either answers or throws; the helpers catch the throw and read
 * it as "not found".
 */
module Browser {
  import opened JavaLang

  /** What one WebElement handle answers. A handle that is not `live` (the
      element has left the DOM) throws on every call. `value` is the `value`
      attribute, which may be null. */
  datatype Elem = Elem(live: bool, displayed: bool, enabled: bool, text: string, value: Nullable<string>)

  /** The outcome of `findElements` for one selector: the matches in document
      order, or a failure of the lookup itself. */
  datatype Lookup = Found(elems: seq<Elem>) | LookupFailed

  /** The page at one instant: its URL and what each selector finds. A
      selector that is not a key of `dom` matches nothing. */
  datatype Page = Page(url: string, dom: map<string, Lookup>)

  /** The outcome of one driver call: its answer, or an exception. */
  datatype Probe<T> = Ok(answer: T) | Threw

  /** `driver.findElements(By.cssSelector(selector))`. */
  function FindElements(p: Page, selector: string): Probe<seq<Elem>>
  {
    if selector !in p.dom then Ok([])
    else match p.dom[selector]
      case Found(es) => Ok(es)
      case LookupFailed => Threw
  }

  /** `driver.findElement(By.cssSelector(selector))`, which throws when
      nothing matches; a PageFactory field re-runs it on every call. */
  function FindElement(p: Page, selector: string): Probe<Elem>
  {
    match FindElements(p, selector)
    case Ok(es) => if es == [] then Threw else Ok(es[0])
    case Threw => Threw
  }

  /** `element.isDisplayed()`. */
  function IsDisplayed(e: Elem): Probe<bool>
  {
    if e.live then Ok(e.displayed) else Threw
  }

  /** The first match of `selector` answers `isDisplayed()` with true; any
      exception on the way reads as false. */
  predicate Visible(p: Page, selector: string)
  {
    match FindElement(p, selector)
    case Ok(e) => IsDisplayed(e) == Ok(true)
    case Threw => false
  }

  /** The elements of a lookup, or none when the lookup failed. */
  function Matches(p: Page, selector: string): seq<Elem>
  {
    match FindElements(p, selector)
    case Ok(es) => es
    case Threw => []
  }

  /** The rendered text of the first match of `selector`; it is only asked
      for once `Visible(p, selector)` holds. */
  function FirstText(p: Page, selector: string): string
    requires Visible(p, selector)
  {
    FindElement(p, selector).answer.text
  }

  /** The index of the first stale handle in `es`, or `|es|` when every
      handle answers. */
  function FirstStale(es: seq<Elem>): (n: nat)
    ensures n <= |es|
    ensures forall j :: 0 <= j < n ==> es[j].live
    ensures n < |es| ==> !es[n].live
  {
    if es == [] || !es[0].live then 0 else 1 + FirstStale(es[1..])
  }

  /** A loop over `es` that lets an exception end it reaches index `i`:
      every handle before `i` answered. */
  predicate Reached(es: seq<Elem>, i: int)
  {
    0 <= i < |es| && i <= FirstStale(es)
  }

  /** An element that shows a non-blank error text. */
  predicate Reports(e: Elem)
  {
    e.live && e.displayed && Trim(e.text) != []
  }

  /** A loop over `es` that an exception ends reaches an element showing
      non-blank text: the head answers and reports, or the loop goes on to
      the tail and something there does. */
  predicate SomeReport(es: seq<Elem>)
    decreases |es|
  {
    es != [] && es[0].live && (Reports(es[0]) || SomeReport(es[1..]))
  }

  /** Equivalently, some index the loop reaches holds an element that
      reports. */
  lemma {:induction false} SomeReportMeans(es: seq<Elem>)
    ensures SomeReport(es) <==> exists i :: Reached(es, i) && Reports(es[i])
    decreases |es|
  {
    if es != [] && !es[0].live {
      assert forall i :: Reached(es, i) ==> i == 0;
    }
    if es != [] && es[0].live {
      SomeReportMeans(es[1..]);
      if SomeReport(es) {
        if Reports(es[0]) {
          assert Reached(es, 0);
        } else {
          var i :| Reached(es[1..], i) && Reports(es[1..][i]);
          ReachedShift(es, i);
          assert Reached(es, i + 1) && Reports(es[i + 1]);
        }
      }
      if exists i :: Reached(es, i) && Reports(es[i]) {
        var i :| Reached(es, i) && Reports(es[i]);
        if i > 0 {
          ReachedShift(es, i - 1);
          assert Reached(es[1..], i - 1) && Reports(es[1..][i - 1]);
        }
      }
    }
  }

  /** Index `i` of the tail is reached exactly when index `i + 1` of the
      whole list is, given that the head answers. */
  lemma ReachedShift(es: seq<Elem>, i: nat)
    requires es != [] && es[0].live
    ensures Reached(es[1..], i) <==> Reached(es, i + 1)
    ensures 0 <= i < |es| - 1 ==> es[1..][i] == es[i + 1]
  {
    if Reached(es, i + 1) {
      forall j | 0 <= j < i ensures es[1..][j].live {
        assert es[1..][j] == es[j + 1];
      }
      assert Reached(es[1..], i);
    }
    if Reached(es[1..], i) {
      forall j | 0 <= j < i + 1 ensures es[j].live {
        if j > 0 { assert es[j] == es[1..][j - 1]; }
      }
      assert Reached(es, i + 1);
    }
  }
}
