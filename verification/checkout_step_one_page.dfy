/**
 * CheckoutStepOnePage: the first checkout step (name and postal code form)
 * seen through a page snapshot. Every query re-finds its element, as a
 * PageFactory proxy does, and a query that throws reads as "absent".
 */
module CheckoutStepOnePage {
  import opened JavaLang
  import opened Browser

  const TitleSel := "[data-test='title']"
  const FirstNameSel := "[data-test='firstName']"
  const LastNameSel := "[data-test='lastName']"
  const PostalCodeSel := "[data-test='postalCode']"
  const ContinueSel := "[data-test='continue']"
  const CancelSel := "[data-test='cancel']"
  const ErrorSel := "[data-test='error']"
  const ContainerSel := ".error-message-container"
  const BannerSel := ".error-message-container .error"
  const HeadingSel := ".error-message-container h3"

  /** The one combined selector both error checks fall back on. */
  const GenericErrorSel := ".error-message-container, [data-test='error'], .error, .error-banner, .field-error"

  /** The combined selector for input fields styled as invalid. */
  const FieldErrorSel :=
    "[data-test='firstName'].error, [data-test='firstName']:invalid, " +
    "[data-test='firstName'][aria-invalid='true'], " +
    "[data-test='lastName'].error, [data-test='lastName']:invalid, " +
    "[data-test='lastName'][aria-invalid='true'], " +
    "[data-test='postalCode'].error, [data-test='postalCode']:invalid, " +
    "[data-test='postalCode'][aria-invalid='true']"

  const StepOnePath := "checkout-step-one.html"
  const StepOneTitle := "Checkout: Your Information"

  // ---------------------------------------------------------------------------
  // Page identity

  /** `isCheckoutStepOnePageLoaded`: the title is displayed, the URL names the
      step-one page and the title reads exactly "Checkout: Your Information". */
  function IsCheckoutStepOnePageLoaded(p: Page): (r: bool)
    ensures r <==> FindElement(p, TitleSel).Ok? && FindElement(p, TitleSel).answer.live &&
                   FindElement(p, TitleSel).answer.displayed &&
                   FindElement(p, TitleSel).answer.text == StepOneTitle && Contains(p.url, StepOnePath)
  {
    Visible(p, TitleSel) && Contains(p.url, StepOnePath) && FirstText(p, TitleSel) == StepOneTitle
  }

  /** The URL test looks for the page name anywhere, so a query string or a
      different host does not change the verdict. */
  lemma {:induction false} LoadedIgnoresUrlSurroundings(p: Page, before: string, after: string)
    ensures IsCheckoutStepOnePageLoaded(p) ==> IsCheckoutStepOnePageLoaded(p.(url := before + p.url + after))
  {
    if IsCheckoutStepOnePageLoaded(p) {
      var i :| 0 <= i <= |p.url| - |StepOnePath| && InfixAt(p.url, StepOnePath, i);
      var u := before + p.url + after;
      assert u[|before| + i..|before| + i + |StepOnePath|] == p.url[i..i + |StepOnePath|];
      assert InfixAt(u, StepOnePath, |before| + i);
    }
  }

  // ---------------------------------------------------------------------------
  // Is an error shown?

  /** The loop over the generic matches finds a displayed element before any
      handle throws. */
  function AnyShown(es: seq<Elem>): (r: bool)
    ensures r <==> exists i :: Reached(es, i) && es[i].live && es[i].displayed
  {
    if es == [] || !es[0].live then false
    else if es[0].displayed then (assert Reached(es, 0); true)
    else
      var rest := AnyShown(es[1..]);
      AnyShownStep(es, rest);
      rest
  }

  lemma AnyShownStep(es: seq<Elem>, rest: bool)
    requires es != [] && es[0].live && !es[0].displayed
    requires rest <==> exists i :: Reached(es[1..], i) && es[1..][i].live && es[1..][i].displayed
    ensures rest <==> exists i :: Reached(es, i) && es[i].live && es[i].displayed
  {
    if rest {
      var i :| Reached(es[1..], i) && es[1..][i].live && es[1..][i].displayed;
      assert Reached(es, i + 1);
    }
    if exists i :: Reached(es, i) && es[i].live && es[i].displayed {
      var i :| Reached(es, i) && es[i].live && es[i].displayed;
      assert i != 0;
      assert Reached(es[1..], i - 1);
    }
  }

  /** What `isErrorMessageDisplayed` answers: the standard error, the
      container or the banner is displayed, or the generic loop meets a
      displayed element. */
  predicate ErrorDisplayed(p: Page)
  {
    Visible(p, ErrorSel) || Visible(p, ContainerSel) || Visible(p, BannerSel) ||
    AnyShown(Matches(p, GenericErrorSel))
  }

  /** `isErrorMessageDisplayed`: four independent probes, each of which reads
      an exception as false, combined by "or". */
  method IsErrorMessageDisplayed(p: Page) returns (isDisplayed: bool)
    ensures isDisplayed <==> Visible(p, ErrorSel) || Visible(p, ContainerSel) || Visible(p, BannerSel) ||
                             exists i :: Reached(Matches(p, GenericErrorSel), i) &&
                                         Matches(p, GenericErrorSel)[i].live && Matches(p, GenericErrorSel)[i].displayed
    ensures isDisplayed == ErrorDisplayed(p)
  {
    var standardErrorDisplayed := Visible(p, ErrorSel);
    var containerErrorDisplayed := Visible(p, ContainerSel);
    var bannerErrorDisplayed := Visible(p, BannerSel);
    var anyErrorDisplayed := false;
    var lookup := FindElements(p, GenericErrorSel);
    if lookup.Ok? {
      anyErrorDisplayed := AnyDisplayed(lookup.answer);
    }
    assert anyErrorDisplayed == AnyShown(Matches(p, GenericErrorSel));
    isDisplayed := standardErrorDisplayed || containerErrorDisplayed || bannerErrorDisplayed || anyErrorDisplayed;
  }

  /** The loop of `isErrorMessageDisplayed` over the generic matches: it
      stops at the first displayed element, and a handle that throws ends it
      with false. */
  method AnyDisplayed(errorElements: seq<Elem>) returns (anyErrorDisplayed: bool)
    ensures anyErrorDisplayed == AnyShown(errorElements)
  {
    anyErrorDisplayed := false;
    var i := 0;
    while i < |errorElements|
      invariant 0 <= i <= |errorElements|
      invariant AnyShown(errorElements) == AnyShown(errorElements[i..])
      invariant !anyErrorDisplayed
    {
      assert errorElements[i..][0] == errorElements[i] && errorElements[i..][1..] == errorElements[i + 1..];
      var shown := IsDisplayed(errorElements[i]);
      if shown.Threw? {
        break;
      }
      if shown.answer {
        anyErrorDisplayed := true;
        break;
      }
      i := i + 1;
    }
  }

  // ---------------------------------------------------------------------------
  // Which error text is shown?

  /** The generic fallback: the trimmed text of the first match that is
      displayed and not blank, or null when the loop ends without one (the
      list runs out or a handle throws). */
  function FirstReportText(es: seq<Elem>): (r: Nullable<string>)
    ensures r.NonNull? <==> SomeReport(es)
    ensures r.NonNull? ==> r.value != [] && FirstReportAt(es, r.value)
  {
    if es == [] || !es[0].live then Null
    else if es[0].displayed && Trim(es[0].text) != [] then
      assert Reached(es, 0);
      NonNull(Trim(es[0].text))
    else
      var rest := FirstReportText(es[1..]);
      if rest.NonNull? then FirstReportShifts(es, rest.value); rest
      else rest
  }

  /** `text` is the trimmed text of a reported element that the loop reaches
      with no reported element before it. */
  ghost predicate FirstReportAt(es: seq<Elem>, text: string)
  {
    exists i :: Reached(es, i) && Reports(es[i]) && text == Trim(es[i].text) &&
                forall j :: 0 <= j < i ==> !Reports(es[j])
  }

  lemma FirstReportShifts(es: seq<Elem>, text: string)
    requires es != [] && es[0].live && !Reports(es[0])
    requires FirstReportAt(es[1..], text)
    ensures FirstReportAt(es, text)
  {
    var tail := es[1..];
    var i :| Reached(tail, i) && Reports(tail[i]) && text == Trim(tail[i].text) &&
             forall j :: 0 <= j < i ==> !Reports(tail[j]);
    ReachedShift(es, i);
    NoEarlierReport(es, i);
    assert Reports(es[i + 1]) && text == Trim(es[i + 1].text);
  }

  lemma NoEarlierReport(es: seq<Elem>, i: nat)
    requires es != [] && !Reports(es[0]) && i < |es|
    requires forall j :: 0 <= j < i ==> !Reports(es[1..][j])
    ensures forall j :: 0 <= j < i + 1 ==> !Reports(es[j])
  {
    forall j | 0 < j < i + 1 ensures !Reports(es[j]) {
      assert es[j] == es[1..][j - 1];
    }
  }

  /** What `getErrorMessageText` returns: the text of the standard error, the
      container or the banner, the first of them that is displayed; else the
      first displayed non-blank generic match, trimmed; else the trimmed text
      of a displayed heading; else "". */
  function ErrorText(p: Page): (r: string)
    ensures r != [] ==> ErrorDisplayed(p) || Visible(p, HeadingSel)
    ensures !ErrorDisplayed(p) && !Visible(p, HeadingSel) ==> r == []
  {
    if Visible(p, ErrorSel) then FirstText(p, ErrorSel)
    else if Visible(p, ContainerSel) then FirstText(p, ContainerSel)
    else if Visible(p, BannerSel) then FirstText(p, BannerSel)
    else match FirstReportText(Matches(p, GenericErrorSel))
      case NonNull(text) => text
      case Null => if Visible(p, HeadingSel) then Trim(FirstText(p, HeadingSel)) else []
  }

  /** The three fixed candidates, in priority order. */
  const Candidates: seq<string> := [ErrorSel, ContainerSel, BannerSel]

  /** Two pages whose lookups agree on the given selectors. */
  predicate AgreeOn(p: Page, q: Page, selectors: seq<string>)
  {
    forall k :: 0 <= k < |selectors| ==> FindElements(p, selectors[k]) == FindElements(q, selectors[k])
  }

  /** Priority: once the `k`-th fixed candidate is the first displayed one,
      nothing after it matters; two pages that agree up to it yield the same
      text. */
  lemma FirstVisibleCandidateDecides(p: Page, q: Page, k: nat)
    requires k < |Candidates| && Visible(p, Candidates[k])
    requires forall j :: 0 <= j < k ==> !Visible(p, Candidates[j])
    requires AgreeOn(p, q, Candidates[..k + 1])
    ensures ErrorText(p) == ErrorText(q)
    ensures ErrorText(p) == FirstText(p, Candidates[k])
  {
    forall j | 0 <= j <= k ensures FindElements(p, Candidates[j]) == FindElements(q, Candidates[j]) {
      assert Candidates[..k + 1][j] == Candidates[j];
    }
    assert Candidates[0] == ErrorSel && Candidates[1] == ContainerSel && Candidates[2] == BannerSel;
    if k == 0 {
      assert FindElements(p, ErrorSel) == FindElements(q, ErrorSel);
    } else if k == 1 {
      assert FindElements(p, ErrorSel) == FindElements(q, ErrorSel);
      assert FindElements(p, ContainerSel) == FindElements(q, ContainerSel);
    } else {
      assert FindElements(p, ErrorSel) == FindElements(q, ErrorSel);
      assert FindElements(p, ContainerSel) == FindElements(q, ContainerSel);
      assert FindElements(p, BannerSel) == FindElements(q, BannerSel);
    }
  }

  /** With no fixed candidate displayed, the generic list decides whenever it
      holds a reportable element, and the heading is never consulted. */
  lemma GenericFallbackDecides(p: Page)
    requires forall j :: 0 <= j < |Candidates| ==> !Visible(p, Candidates[j])
    requires SomeReport(Matches(p, GenericErrorSel))
    ensures ErrorText(p) != [] && ErrorText(p) == Trim(ErrorText(p))
    ensures FirstReportAt(Matches(p, GenericErrorSel), ErrorText(p))
  {
    assert !Visible(p, Candidates[0]) && !Visible(p, Candidates[1]) && !Visible(p, Candidates[2]);
    assert !Visible(p, ErrorSel) && !Visible(p, ContainerSel) && !Visible(p, BannerSel);
    var es := Matches(p, GenericErrorSel);
    var r := FirstReportText(es);
    assert ErrorText(p) == r.value;
    var i :| Reached(es, i) && Reports(es[i]) && r.value == Trim(es[i].text) &&
             forall j :: 0 <= j < i ==> !Reports(es[j]);
    TrimTwice(es[i].text);
  }

  /** The last resort: with no fixed candidate displayed and no generic match
      showing non-blank text, the text is the trimmed text of a displayed
      heading, or "" when there is none; it is empty exactly when the
      heading is missing, hidden or blank. */
  lemma HeadingFallbackDecides(p: Page)
    requires !Visible(p, ErrorSel) && !Visible(p, ContainerSel) && !Visible(p, BannerSel)
    requires !SomeReport(Matches(p, GenericErrorSel))
    ensures ErrorText(p) == if Visible(p, HeadingSel) then Trim(FirstText(p, HeadingSel)) else []
    ensures ErrorText(p) == Trim(ErrorText(p))
    ensures ErrorText(p) != [] <==> Visible(p, HeadingSel) && !IsBlank(FirstText(p, HeadingSel))
  {
    if Visible(p, HeadingSel) {
      TrimTwice(FirstText(p, HeadingSel));
    }
  }

  /** `getErrorMessageText`: a chain of guarded early returns, one of them
      inside a loop over the generic matches. */
  method GetErrorMessageText(p: Page) returns (errorText: string)
    ensures errorText == ErrorText(p)
  {
    errorText := [];
    if Visible(p, ErrorSel) {
      errorText := FirstText(p, ErrorSel);
      return;
    }
    if Visible(p, ContainerSel) {
      errorText := FirstText(p, ContainerSel);
      return;
    }
    if Visible(p, BannerSel) {
      errorText := FirstText(p, BannerSel);
      return;
    }
    var lookup := FindElements(p, GenericErrorSel);
    if lookup.Ok? {
      var reported := FirstReportedText(lookup.answer);
      if reported.NonNull? {
        errorText := reported.value;
        return;
      }
    }
    var heading := FindElement(p, HeadingSel);
    if heading.Ok? {
      var shown := IsDisplayed(heading.answer);
      if shown == Ok(true) {
        errorText := Trim(heading.answer.text);
        return;
      }
    }
  }

  /** The loop of `getErrorMessageText` over the generic matches: the first
      displayed element with non-blank text gives its trimmed text; a handle
      that throws ends the loop with nothing. */
  method FirstReportedText(errorElements: seq<Elem>) returns (reported: Nullable<string>)
    ensures reported == FirstReportText(errorElements)
  {
    var i := 0;
    while i < |errorElements|
      invariant 0 <= i <= |errorElements|
      invariant FirstReportText(errorElements) == FirstReportText(errorElements[i..])
    {
      assert errorElements[i..][0] == errorElements[i] && errorElements[i..][1..] == errorElements[i + 1..];
      var shown := IsDisplayed(errorElements[i]);
      if shown.Threw? {
        break;
      }
      if shown.answer && Trim(errorElements[i].text) != [] {
        return NonNull(Trim(errorElements[i].text));
      }
      i := i + 1;
    }
    return Null;
  }

  // ---------------------------------------------------------------------------
  // Questions about the error text

  /** `errorMessageContains`: a case-insensitive substring test on the error
      text; a null argument makes the call throw, which reads as false. */
  function ErrorMessageContains(p: Page, expectedText: Nullable<string>): (r: bool)
    ensures expectedText.Null? ==> !r
    ensures r ==> Contains(Lower(ErrorText(p)), Lower(expectedText.value))
  {
    match expectedText
    case Null => false
    case NonNull(expected) => Contains(Lower(ErrorText(p)), Lower(expected))
  }

  /** The case of the expected text never matters. */
  lemma ErrorMessageContainsIgnoresCase(p: Page, x: string, y: string)
    requires Lower(x) == Lower(y)
    ensures ErrorMessageContains(p, NonNull(x)) == ErrorMessageContains(p, NonNull(y))
  {
  }

  /** A page that shows the expected text exactly also passes the check. */
  lemma ExactTextIsContained(p: Page, x: string)
    requires Contains(ErrorText(p), x)
    ensures ErrorMessageContains(p, NonNull(x))
  {
    LowerKeepsContains(ErrorText(p), x);
  }

  /** A non-empty expected text passes only when some error text is shown,
      while the empty expected text passes on every page. */
  lemma ContainsNeedsAnError(p: Page, x: string)
    ensures x != [] && ErrorMessageContains(p, NonNull(x)) ==> ErrorDisplayed(p) || Visible(p, HeadingSel)
    ensures ErrorMessageContains(p, NonNull([]))
  {
    assert Lower([]) == [];
    ContainsEmpty(Lower(ErrorText(p)));
    if x != [] && ErrorMessageContains(p, NonNull(x)) {
      var i :| 0 <= i <= |Lower(ErrorText(p))| - |Lower(x)| && InfixAt(Lower(ErrorText(p)), Lower(x), i);
      assert ErrorText(p) != [];
    }
  }

  // ---------------------------------------------------------------------------
  // Field-specific errors

  datatype FieldKind = FirstName | LastName | PostalCode | Other

  /** The `switch` on the lower-cased field name and its aliases. */
  function FieldKindOf(field: string): (k: FieldKind)
    ensures k == FirstName <==> Lower(field) in {"firstname", "first name"}
    ensures k == LastName <==> Lower(field) in {"lastname", "last name"}
    ensures k == PostalCode <==> Lower(field) in {"postalcode", "postal code", "zipcode", "zip code"}
  {
    var key := Lower(field);
    if key == "firstname" || key == "first name" then FirstName
    else if key == "lastname" || key == "last name" then LastName
    else if key == "postalcode" || key == "postal code" || key == "zipcode" || key == "zip code" then PostalCode
    else Other
  }

  /** The exact-case keywords each branch looks for. */
  function Keywords(k: FieldKind): seq<string>
  {
    match k
    case FirstName => ["First Name", "firstName"]
    case LastName => ["Last Name", "lastName"]
    case PostalCode => ["Postal Code", "Zip Code", "postalCode"]
    case Other => []
  }

  /** `hasSpecificFieldError` on a given error text: a known field looks for
      one of its keywords, case-sensitively; any other field name is looked
      for case-insensitively. */
  function HasFieldErrorIn(errorText: string, field: string): (r: bool)
    ensures FieldKindOf(field) != Other ==>
              (r <==> exists j :: 0 <= j < |Keywords(FieldKindOf(field))| && Contains(errorText, Keywords(FieldKindOf(field))[j]))
    ensures FieldKindOf(field) == Other ==> (r <==> Contains(Lower(errorText), Lower(field)))
  {
    KeywordsListed(errorText);
    match FieldKindOf(field)
    case FirstName => Contains(errorText, "First Name") || Contains(errorText, "firstName")
    case LastName => Contains(errorText, "Last Name") || Contains(errorText, "lastName")
    case PostalCode => Contains(errorText, "Postal Code") || Contains(errorText, "Zip Code") || Contains(errorText, "postalCode")
    case Other => Contains(Lower(errorText), Lower(field))
  }

  /** Helper: each keyword list spelled out as the disjunction its branch tests. */
  lemma KeywordsListed(errorText: string)
    ensures (exists j :: 0 <= j < |Keywords(FirstName)| && Contains(errorText, Keywords(FirstName)[j])) <==>
            Contains(errorText, "First Name") || Contains(errorText, "firstName")
    ensures (exists j :: 0 <= j < |Keywords(LastName)| && Contains(errorText, Keywords(LastName)[j])) <==>
            Contains(errorText, "Last Name") || Contains(errorText, "lastName")
    ensures (exists j :: 0 <= j < |Keywords(PostalCode)| && Contains(errorText, Keywords(PostalCode)[j])) <==>
            Contains(errorText, "Postal Code") || Contains(errorText, "Zip Code") || Contains(errorText, "postalCode")
  {
    assert Keywords(FirstName)[0] == "First Name" && Keywords(FirstName)[1] == "firstName";
    assert Keywords(LastName)[0] == "Last Name" && Keywords(LastName)[1] == "lastName";
    assert Keywords(PostalCode)[0] == "Postal Code" && Keywords(PostalCode)[1] == "Zip Code" && Keywords(PostalCode)[2] == "postalCode";
  }

  /** `hasSpecificFieldError` on the page's error text. With a non-empty
      field name it needs some error text; the empty field name falls back to
      `contains("")` and holds on every page. */
  function HasSpecificFieldError(p: Page, field: string): (r: bool)
    ensures r && field != [] ==> ErrorText(p) != []
    ensures field == [] ==> r
  {
    EmptyTextHasNoFieldError(field);
    ContainsEmpty(Lower(ErrorText(p)));
    HasFieldErrorIn(ErrorText(p), field)
  }

  lemma EmptyTextHasNoFieldError(field: string)
    ensures HasFieldErrorIn([], field) <==> field == []
  {
    KeywordsListed([]);
    if field == [] {
      assert InfixAt(Lower([]), Lower(field), 0);
    }
  }

  /** Field names that differ only in case select the same branch and agree
      on every error text. */
  lemma FieldNameCaseIsIgnored(errorText: string, f: string, g: string)
    requires Lower(f) == Lower(g)
    ensures FieldKindOf(f) == FieldKindOf(g)
    ensures HasFieldErrorIn(errorText, f) == HasFieldErrorIn(errorText, g)
  {
  }

  /** "zip code", "Zip Code", "postalCode" and "postal code" all name the
      postal-code field. */
  lemma PostalCodeAliases(f: string)
    requires f == "zip code" || f == "Zip Code" || f == "postalCode" || f == "postal code"
    ensures FieldKindOf(f) == PostalCode
  {
    if f == "Zip Code" {
      assert Lower(f) == "zip code";
    } else if f == "postalCode" {
      assert Lower(f)[6] == 'c';
      assert Lower(f) == "postalcode";
    }
  }

  /** The alias branches are case-sensitive: a lower-case message names no
      known field, although the fallback for an unknown field name would
      find it. */
  lemma FieldKeywordsAreCaseSensitive(m: string, field: string)
    requires m == "error: first name is required" && field == "first name"
    ensures !HasFieldErrorIn(m, field)
    ensures Contains(Lower(m), Lower(field))
  {
    LowerCaseFirstName(field);
    KeywordsListed(m);
    LowerCaseMessageLacks(m);
    KeywordLetters();
    MissingCharRulesOut(m, "First Name", 'F');
    MissingCharRulesOut(m, "firstName", 'N');
    LowerCaseMessageNames(m, field);
    LowerKeepsContains(m, field);
  }

  lemma LowerCaseMessageLacks(m: string)
    requires m == "error: first name is required"
    ensures 'F' !in m && 'N' !in m
  {
    LowerCaseMessageChars(m);
    CharsAvoided(m, "FN");
  }

  lemma LowerCaseMessageChars(m: string)
    requires m == "error: first name is required"
    ensures forall i :: 0 <= i < |m| ==> m[i] !in "FN"
  {
  }

  lemma KeywordLetters()
    ensures 'F' in "First Name" && 'N' in "firstName"
  {
    assert "First Name"[0] == 'F';
    assert "firstName"[5] == 'N';
  }

  lemma LowerCaseMessageNames(m: string, field: string)
    requires m == "error: first name is required" && field == "first name"
    ensures Contains(m, field)
  {
    assert m == "error: " + field + " is required";
    ContainsMiddle("error: ", field, " is required");
  }

  lemma LowerCaseFirstName(field: string)
    requires field == "first name"
    ensures FieldKindOf(field) == FirstName
  {
    assert Lower(field) == field;
  }

  /** The storefront's message for a missing first name is recognised under
      either spelling of the field. */
  lemma StorefrontFirstNameMessage(m: string, field: string)
    requires m == "Error: First Name is required"
    requires field == "firstName" || field == "First Name"
    ensures HasFieldErrorIn(m, field)
  {
    FirstNameSpellings(field);
    MessageNamesFirstName(m);
    KeywordsListed(m);
  }

  lemma FirstNameSpellings(field: string)
    requires field == "firstName" || field == "First Name"
    ensures FieldKindOf(field) == FirstName
  {
    assert Lower(field) == "firstname" || Lower(field) == "first name";
  }

  lemma MessageNamesFirstName(m: string)
    requires m == "Error: First Name is required"
    ensures Contains(m, "First Name")
  {
    assert m == "Error: " + "First Name" + " is required";
    ContainsMiddle("Error: ", "First Name", " is required");
  }

  // ---------------------------------------------------------------------------
  // Field styling, values and buttons

  /** `areFieldValidationErrorsDisplayed`: true exactly when the lookup
      succeeds, finds some field styled as invalid, and every handle answers
      `isDisplayed()`; what those calls answer does not matter. */
  method AreFieldValidationErrorsDisplayed(p: Page) returns (hasFieldErrors: bool)
    ensures hasFieldErrors <==> FindElements(p, FieldErrorSel).Ok? && FindElements(p, FieldErrorSel).answer != [] &&
                                forall j :: 0 <= j < |FindElements(p, FieldErrorSel).answer| ==> FindElements(p, FieldErrorSel).answer[j].live
  {
    var lookup := FindElements(p, FieldErrorSel);
    if lookup.Threw? {
      return false;
    }
    var fieldsWithErrors := lookup.answer;
    hasFieldErrors := fieldsWithErrors != [];
    var i := 0;
    while i < |fieldsWithErrors|
      invariant 0 <= i <= |fieldsWithErrors|
      invariant hasFieldErrors <==> fieldsWithErrors != []
      invariant forall j :: 0 <= j < i ==> fieldsWithErrors[j].live
    {
      var shown := IsDisplayed(fieldsWithErrors[i]);
      if shown.Threw? {
        return false;
      }
      if shown.answer {
        hasFieldErrors := true;
      }
      i := i + 1;
    }
  }

  /** `getFirstNameValue`, `getLastNameValue` and `getPostalCodeValue`: the
      `value` attribute of the field, or "" when it is null or the read
      throws. */
  function FieldValue(p: Page, fieldSel: string): (r: string)
    ensures FindElement(p, fieldSel).Threw? ==> r == []
    ensures r != [] ==> FindElement(p, fieldSel).Ok? && FindElement(p, fieldSel).answer.live &&
                        FindElement(p, fieldSel).answer.value == NonNull(r)
  {
    match FindElement(p, fieldSel)
    case Threw => []
    case Ok(e) =>
      if !e.live then []
      else match e.value
        case Null => []
        case NonNull(v) => v
  }

  /** A field whose value attribute holds `v` reads back as `v`. */
  lemma FieldValueReadsAttribute(p: Page, fieldSel: string, v: string)
    requires FindElement(p, fieldSel).Ok? && FindElement(p, fieldSel).answer.live
    requires FindElement(p, fieldSel).answer.value == NonNull(v)
    ensures FieldValue(p, fieldSel) == v
  {
  }

  /** `isContinueButtonEnabled` and `isCancelButtonEnabled`: the button's
      `isEnabled()`, with an exception read as false. */
  function ButtonEnabled(p: Page, buttonSel: string): (r: bool)
    ensures r <==> FindElement(p, buttonSel).Ok? && FindElement(p, buttonSel).answer.live &&
                   FindElement(p, buttonSel).answer.enabled
    ensures FindElements(p, buttonSel) == Ok([]) ==> !r
  {
    match FindElement(p, buttonSel)
    case Threw => false
    case Ok(e) => e.live && e.enabled
  }

  /** `areFormFieldsDisplayed`: the three inputs are all displayed; a field
      that is missing or whose handle throws counts as not displayed. */
  function FormFieldsDisplayed(p: Page): (r: bool)
    ensures r <==> Shown(FindElement(p, FirstNameSel)) && Shown(FindElement(p, LastNameSel)) &&
                   Shown(FindElement(p, PostalCodeSel))
  {
    Visible(p, FirstNameSel) && Visible(p, LastNameSel) && Visible(p, PostalCodeSel)
  }

  /** The probe found an element that answers and is displayed. */
  predicate Shown(found: Probe<Elem>)
  {
    found.Ok? && found.answer.live && found.answer.displayed
  }

  // ---------------------------------------------------------------------------
  // Waiting for an error

  /** The number of checks `waitForErrorMessage` makes at most. */
  const MaxErrorChecks := 10

  /** `waitForErrorMessage`: call `isErrorMessageDisplayed` on `at(0)`,
      `at(1)`, ... (the page at each check, 500 ms apart) until it answers
      true, at most ten times. `checks` counts the calls made. */
  method WaitForErrorMessage(at: nat -> Page) returns (found: bool, checks: nat)
    ensures checks <= MaxErrorChecks
    ensures found ==> 0 < checks && ErrorDisplayed(at(checks - 1))
    ensures !found ==> checks == MaxErrorChecks
    ensures forall i :: 0 <= i < (if found then checks - 1 else checks) ==> !ErrorDisplayed(at(i))
    ensures found <==> exists i :: 0 <= i < MaxErrorChecks && ErrorDisplayed(at(i))
  {
    for i := 0 to MaxErrorChecks
      invariant forall j :: 0 <= j < i ==> !ErrorDisplayed(at(j))
    {
      var shown := IsErrorMessageDisplayed(at(i));
      if shown {
        return true, i + 1;
      }
    }
    return false, MaxErrorChecks;
  }
}
