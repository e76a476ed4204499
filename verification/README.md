# Swag Labs checkout form validation, modelled in Dafny

This project models two classes of a Selenium test suite for the Swag Labs (saucedemo) storefront.

- `CheckoutStepOnePage` is the page object for the first checkout step: the form for first name, last name and postal code. It decides whether the page is loaded, whether an error is shown, which error text is shown, and whether that text names a given field. It also reads field values and button states, and polls for an error.
- `FormValidationHelper` holds the expected error-message pattern tables and their case-insensitive matcher. It also has the postal-code format check, the per-field error-styling check, the collector that joins every visible error text with `" | "`, and a poll with a timeout.

The browser is a snapshot (`Browser.Page`): the current URL, plus what each CSS selector finds. A selector is an opaque key; it is either a list of elements in document order or a failed lookup. Each WebDriver call is a probe that answers or throws:

- `findElement` throws on an empty list.
- A stale element handle (`live == false`) throws on every call.

The model catches those throws exactly where the Java code does, and reads them the same way ("absent", `false`, `""`, or "skip this selector").

Polling loops take the page at each probe as a function `at: nat -> Page`, so `Thread.sleep` becomes "the next snapshot".

Java's `String.trim`, `toLowerCase`, `contains`, `null` and 32-bit `int` arithmetic live in `JavaLang`. Loops that update variables in the source are methods, proved against the function that specifies them:
- `getAllErrorMessages`
- `hasFieldErrorStyling`
- `isErrorMessageDisplayed`
- `getErrorMessageText`
- `areFieldValidationErrorsDisplayed`
- both `waitForErrorMessage`s

Everything else is a function.

## Model

| member | source | states |
|---|---|---|
| JavaLang.Wrap32 | src/main/java/com/swaglabs/utils/FormValidationHelper.java:237 | Java `int` arithmetic: the result is congruent to the exact value modulo 2^32 and equals it when it fits in 32 bits |
| JavaLang.Trim | src/main/java/com/swaglabs/utils/FormValidationHelper.java:47-51 | `trim()` is empty exactly for blank strings, otherwise starts and ends with a non-blank character, and is an infix of its input |
| JavaLang.Lower | src/main/java/com/swaglabs/utils/FormValidationHelper.java:51 | `toLowerCase()`: the same length, each ASCII capital replaced by its small letter and every other character kept; `LowerKeepsBlank`, `LowerKeepsContains` and `LowerAppend` state its properties |
| JavaLang.Contains | src/main/java/com/swaglabs/utils/FormValidationHelper.java:54 | `s.contains(p)`: `p` occurs in `s` at some offset from 0 up to the length of `s` minus the length of `p`; the empty string occurs in every string |
| JavaLang.TrimStartDrops | src/main/java/com/swaglabs/utils/FormValidationHelper.java:47-51 | stripping leading blanks keeps a suffix and drops only blank characters |
| JavaLang.TrimEndDrops | src/main/java/com/swaglabs/utils/FormValidationHelper.java:47-51 | stripping trailing blanks keeps a prefix and drops only blank characters |
| JavaLang.TrimTwice | src/main/java/com/saucedemo/pages/CheckoutStepOnePage.java:226-227 | trimming is idempotent, so the text the generic fallback returns, already trimmed once, is its own trim |
| JavaLang.TrimOfTrimmed | src/main/java/com/swaglabs/utils/FormValidationHelper.java:51 | a string with no blank at either end is its own trim |
| JavaLang.LowerKeepsBlank | src/main/java/com/swaglabs/utils/FormValidationHelper.java:47-51 | lower-casing neither creates nor removes blank characters, so blankness can be tested before or after it |
| JavaLang.LowerKeepsContains | src/main/java/com/swaglabs/utils/FormValidationHelper.java:54 | `s.contains(p)` implies `s.toLowerCase().contains(p.toLowerCase())` |
| JavaLang.LowerAppend | src/main/java/com/swaglabs/utils/FormValidationHelper.java:51 | lower-casing commutes with concatenation |
| JavaLang.ContainsTransitive | src/main/java/com/swaglabs/utils/FormValidationHelper.java:54 | containing a string implies containing each of its infixes |
| JavaLang.MissingCharRulesOut | src/main/java/com/swaglabs/utils/FormValidationHelper.java:54 | a pattern with a character the message lacks is never contained in it |
| Browser.FirstStale | src/main/java/com/swaglabs/utils/FormValidationHelper.java:139-152 | the index where an element loop is cut short by a throwing handle: every earlier handle answers, the one there throws |
| Browser.FindElement | src/main/java/com/saucedemo/pages/CheckoutStepOnePage.java:238 | `findElement`: the first match of the selector; it throws when nothing matches or the lookup fails |
| Browser.Visible | src/main/java/com/saucedemo/pages/CheckoutStepOnePage.java:139-155 | `x.isDisplayed()` inside a `try`: the first match is found, answers, and is displayed; any exception reads as false |
| Browser.SomeReportMeans | src/main/java/com/saucedemo/pages/CheckoutStepOnePage.java:225-231 | the loop finds a displayed element with non-blank text exactly when some index it reaches holds one |
| FormValidationHelper.SomePatternIn | src/main/java/com/swaglabs/utils/FormValidationHelper.java:53-62 | the early-exit loop over the patterns answers true exactly when some lower-cased pattern occurs in the normalised message |
| FormValidationHelper.ContainsAnyPattern | src/main/java/com/swaglabs/utils/FormValidationHelper.java:46-63 | null or blank messages and empty tables give false; otherwise true exactly when some lower-cased pattern occurs in the lower-cased, trimmed message |
| FormValidationHelper.IsValidFirstNameError | src/main/java/com/swaglabs/utils/FormValidationHelper.java:68-70 | `containsAnyPattern` over the first-name table; what it accepts and rejects is stated by `TableEntriesAreAccepted`, `MessagesMissingKeyLetters` and the `…MessageTellsApart` lemmas |
| FormValidationHelper.IsValidLastNameError | src/main/java/com/swaglabs/utils/FormValidationHelper.java:75-77 | `containsAnyPattern` over the last-name table; see the same lemmas |
| FormValidationHelper.IsValidPostalCodeError | src/main/java/com/swaglabs/utils/FormValidationHelper.java:82-84 | `containsAnyPattern` over the postal-code table; see the same lemmas and `UpperCasePostalErrorAccepted` |
| FormValidationHelper.ContainsAnyPatternIgnoresCase | src/main/java/com/swaglabs/utils/FormValidationHelper.java:51 | messages that differ only in letter case get the same verdict |
| FormValidationHelper.PatternMatchesItself | src/main/java/com/swaglabs/utils/FormValidationHelper.java:46-63 | a table entry with no blank at either end is accepted by its own table |
| FormValidationHelper.TableEntriesAreAccepted | src/main/java/com/swaglabs/utils/FormValidationHelper.java:21-84 | every entry of each of the three tables is accepted by the matching `isValid…Error` |
| FormValidationHelper.UpperCasePostalErrorAccepted | src/main/java/com/swaglabs/utils/FormValidationHelper.java:82-84 | "POSTAL CODE IS REQUIRED" is a valid postal-code error, since the match ignores case |
| FormValidationHelper.MissingLetterRejects | src/main/java/com/swaglabs/utils/FormValidationHelper.java:46-63 | if every pattern holds a letter in some case and the message holds it in neither case, the message matches nothing |
| FormValidationHelper.MessagesMissingKeyLetters | src/main/java/com/swaglabs/utils/FormValidationHelper.java:21-84 | without an F the message is no first-name error, without an L no last-name error, without a P no postal-code error, and without an M no name error |
| FormValidationHelper.FirstNameMessageTellsApart | src/main/java/com/swaglabs/utils/FormValidationHelper.java:65-84 | "Error: First Name is required" is a first-name error and neither a last-name nor a postal-code error |
| FormValidationHelper.LastNameMessageTellsApart | src/main/java/com/swaglabs/utils/FormValidationHelper.java:65-84 | "Error: Last Name is required" is a last-name error and neither a first-name nor a postal-code error |
| FormValidationHelper.PostalCodeMessageTellsApart | src/main/java/com/swaglabs/utils/FormValidationHelper.java:65-84 | "Error: Postal Code is required" is a postal-code error and neither a first-name nor a last-name error |
| FormValidationHelper.LetterInEveryFirstNamePattern | src/main/java/com/swaglabs/utils/FormValidationHelper.java:21-26 | every first-name pattern holds an f and an m, in some case |
| FormValidationHelper.LetterInEveryLastNamePattern | src/main/java/com/swaglabs/utils/FormValidationHelper.java:28-33 | every last-name pattern holds an l and an m, in some case |
| FormValidationHelper.LetterInEveryPostalCodePattern | src/main/java/com/swaglabs/utils/FormValidationHelper.java:35-41 | every postal-code pattern holds a p, in some case |
| FormValidationHelper.FirstNamePrefixedPatternIsRedundant | src/main/java/com/swaglabs/utils/FormValidationHelper.java:21-26 | dropping "Error: First Name is required" from the table changes no verdict, because it contains "First Name is required" |
| FormValidationHelper.LastNamePrefixedPatternIsRedundant | src/main/java/com/swaglabs/utils/FormValidationHelper.java:28-33 | dropping "Error: Last Name is required" from the table changes no verdict |
| FormValidationHelper.PostalCodePrefixedPatternsAreRedundant | src/main/java/com/swaglabs/utils/FormValidationHelper.java:35-41 | dropping both "Error: "-prefixed postal entries from the table changes no verdict |
| FormValidationHelper.RedundantPatternDropped | src/main/java/com/swaglabs/utils/FormValidationHelper.java:53-58 | an entry that contains another entry of the same table can be removed without changing any verdict |
| FormValidationHelper.Without | src/main/java/com/swaglabs/utils/FormValidationHelper.java:21-41 | removing entry `k` shortens the table by one and shifts the later entries down, keeping the earlier ones |
| FormValidationHelper.IsRegexSpace | src/main/java/com/swaglabs/utils/FormValidationHelper.java:170 | the regex class `\s`: space, tab, line feed, vertical tab, form feed and carriage return |
| FormValidationHelper.IsSeparator | src/main/java/com/swaglabs/utils/FormValidationHelper.java:170 | the class `[\s-]` that `replaceAll` deletes: a `\s` character or a hyphen |
| FormValidationHelper.RemoveSeparators | src/main/java/com/swaglabs/utils/FormValidationHelper.java:170 | `replaceAll("[\\s-]", "")` leaves no separator, never lengthens, and keeps the same set of non-separator characters; with `RemoveSeparatorsAppend` and `RemoveSeparatorsNone`, in order |
| FormValidationHelper.RemoveSeparatorsAppend | src/main/java/com/swaglabs/utils/FormValidationHelper.java:170 | removing separators commutes with concatenation |
| FormValidationHelper.RemoveSeparatorsNone | src/main/java/com/swaglabs/utils/FormValidationHelper.java:170 | a string without separators is left unchanged |
| FormValidationHelper.MatchesPostalPattern | src/main/java/com/swaglabs/utils/FormValidationHelper.java:171 | `matches("^[a-zA-Z0-9]{3,10}$")`: 3 to 10 characters, each an ASCII letter or digit |
| FormValidationHelper.IsValidPostalCodeFormat | src/main/java/com/swaglabs/utils/FormValidationHelper.java:163-172 | null and blank codes are invalid; a valid code has 3 to 10 characters once separators are removed, and only letters, digits and separators |
| FormValidationHelper.BlankTestIsRedundant | src/main/java/com/swaglabs/utils/FormValidationHelper.java:164-171 | the verdict is exactly the pattern test on the code with separators removed; the blank test never decides anything on its own |
| FormValidationHelper.SeparatorsDoNotMatter | src/main/java/com/swaglabs/utils/FormValidationHelper.java:170-171 | inserting a space or hyphen anywhere never changes the verdict |
| FormValidationHelper.AlphanumericCodeVerdict | src/main/java/com/swaglabs/utils/FormValidationHelper.java:171 | a code of ASCII letters and digits only is valid exactly when it has 3 to 10 characters |
| FormValidationHelper.ZipCodePasses | src/main/java/com/swaglabs/utils/FormValidationHelper.java:181 | "12345" is valid |
| FormValidationHelper.CanadianCodePasses | src/main/java/com/swaglabs/utils/FormValidationHelper.java:182 | "K1A0A6" is valid |
| FormValidationHelper.HyphenatedCodePasses | src/main/java/com/swaglabs/utils/FormValidationHelper.java:183 | "12345-6789" is valid |
| FormValidationHelper.TooShortCodeFails | src/main/java/com/swaglabs/utils/FormValidationHelper.java:184 | "12" is invalid |
| FormValidationHelper.TooLongCodeFails | src/main/java/com/swaglabs/utils/FormValidationHelper.java:185 | "123456789012345" is invalid |
| FormValidationHelper.PunctuationCodeFails | src/main/java/com/swaglabs/utils/FormValidationHelper.java:186 | "!@#$%" is invalid |
| FormValidationHelper.SpacedCodePasses | src/main/java/com/swaglabs/utils/FormValidationHelper.java:168-171 | "SW1A 1AA", the British example of the comment, is valid |
| FormValidationHelper.HasFieldErrorStyling | src/main/java/com/swaglabs/utils/FormValidationHelper.java:89-117 | true exactly when one of the five styling selectors for the field has a first match that is displayed; throwing probes count as misses |
| FormValidationHelper.AppendMessage | src/main/java/com/swaglabs/utils/FormValidationHelper.java:141-147 | one trimmed text added to the buffer: skipped when empty or already contained, else appended, after `" \| "` when the buffer is non-empty; `AppendMessageFacts` states its properties |
| FormValidationHelper.StepElem | src/main/java/com/swaglabs/utils/FormValidationHelper.java:140-148 | one pass of the inner loop over an element that answers: its trimmed text is appended only when it is displayed |
| FormValidationHelper.CollectElems | src/main/java/com/swaglabs/utils/FormValidationHelper.java:139-149 | the inner loop over one selector's matches, in order; a throwing handle ends it and keeps what was appended |
| FormValidationHelper.CollectSelectors | src/main/java/com/swaglabs/utils/FormValidationHelper.java:136-153 | the outer loop over the selectors, in order; a failed lookup contributes nothing |
| FormValidationHelper.AllErrorMessages | src/main/java/com/swaglabs/utils/FormValidationHelper.java:122-158 | what `getAllErrorMessages` returns: the outer loop from the empty buffer over the seven error selectors; `AllErrorMessagesShape` states what it is |
| FormValidationHelper.AppendMessageFacts | src/main/java/com/swaglabs/utils/FormValidationHelper.java:141-147 | appending keeps what was collected as a prefix, makes the new non-empty text a substring, and leaves the buffer empty only if both were empty |
| FormValidationHelper.CollectElemsExtends | src/main/java/com/swaglabs/utils/FormValidationHelper.java:139-149 | the inner loop only ever appends |
| FormValidationHelper.CollectElemsEmpty | src/main/java/com/swaglabs/utils/FormValidationHelper.java:139-149 | the inner loop leaves an empty buffer empty exactly when no element it reaches shows non-blank text |
| FormValidationHelper.CollectElemsCovers | src/main/java/com/swaglabs/utils/FormValidationHelper.java:139-149 | every reported text the inner loop reaches ends up contained in the buffer |
| FormValidationHelper.CollectElemsCleanEnds | src/main/java/com/swaglabs/utils/FormValidationHelper.java:141-147 | the buffer never starts or ends with a blank character |
| FormValidationHelper.CollectSelectorsEmpty | src/main/java/com/swaglabs/utils/FormValidationHelper.java:136-153 | the outer loop yields the empty string exactly when no selector's loop reaches a reporting element |
| FormValidationHelper.CollectSelectorsCovers | src/main/java/com/swaglabs/utils/FormValidationHelper.java:136-153 | every reporting element reached under any selector has its trimmed text contained in the result |
| FormValidationHelper.AllErrorMessagesShape | src/main/java/com/swaglabs/utils/FormValidationHelper.java:122-158 | the joined messages are empty exactly when no error is reported, have no blank at either end, and contain every reported text |
| FormValidationHelper.GetAllErrorMessages | src/main/java/com/swaglabs/utils/FormValidationHelper.java:122-158 | the nested loops with their per-selector catch compute `AllErrorMessages` |
| FormValidationHelper.AppendDisplayedTexts | src/main/java/com/swaglabs/utils/FormValidationHelper.java:139-149 | the inner loop, which ends at the first throwing handle, computes `CollectElems` |
| FormValidationHelper.AppendBranches | src/main/java/com/swaglabs/utils/FormValidationHelper.java:142-147 | the `length() > 0` separator test and the two appends compute `AppendMessage` |
| FormValidationHelper.ProbesAsWritten | src/main/java/com/swaglabs/utils/FormValidationHelper.java:237 | the loop bound `timeoutSeconds * 2` in 32-bit arithmetic equals twice the timeout for 0 ≤ t < 2^30 |
| FormValidationHelper.ProbeBoundOverflows | src/main/java/com/swaglabs/utils/FormValidationHelper.java:237 | the bound as written allows no probe for a timeout of 2^30 seconds and two probes for a timeout of -2147483647 |
| FormValidationHelper.ProbeBudget | src/main/java/com/swaglabs/utils/FormValidationHelper.java:235-244 | two probes per second of a positive timeout and none otherwise |
| FormValidationHelper.ProbeBudgetMatchesBelowOverflow | src/main/java/com/swaglabs/utils/FormValidationHelper.java:237 | wherever the doubling does not overflow, the bound as written equals the intended budget |
| FormValidationHelper.AnyErrorMessage | src/main/java/com/swaglabs/utils/FormValidationHelper.java:238-239 | `!getAllErrorMessages(driver).isEmpty()` holds exactly when some error selector's loop reaches a reporting element |
| FormValidationHelper.HitBeforeMeans | src/main/java/com/swaglabs/utils/FormValidationHelper.java:237-244 | "some probe before `n` hit", as the loop tracks it, means some index below `n` is a hit |
| FormValidationHelper.WaitForErrorMessage | src/main/java/com/swaglabs/utils/FormValidationHelper.java:235-249 | true exactly when some probe within the budget sees an error; a success stops at the first hit, after which no earlier probe saw one; a failure used up the whole budget |
| CheckoutStepOnePage.IsCheckoutStepOnePageLoaded | src/main/java/com/saucedemo/pages/CheckoutStepOnePage.java:55-61 | loaded exactly when the title is displayed, the URL contains "checkout-step-one.html" and the title text is "Checkout: Your Information" |
| CheckoutStepOnePage.LoadedIgnoresUrlSurroundings | src/main/java/com/saucedemo/pages/CheckoutStepOnePage.java:57 | adding text before or after the URL (host, query string) keeps a loaded page loaded |
| CheckoutStepOnePage.FormFieldsDisplayed | src/main/java/com/saucedemo/pages/CheckoutStepOnePage.java:117-123 | true exactly when each of the three inputs is found, answers, and is displayed; a missing field or a throwing handle makes it false |
| CheckoutStepOnePage.AnyShown | src/main/java/com/saucedemo/pages/CheckoutStepOnePage.java:163-170 | the loop finds a displayed element exactly when some index it reaches before a throw holds one |
| CheckoutStepOnePage.ErrorDisplayed | src/main/java/com/saucedemo/pages/CheckoutStepOnePage.java:175-176 | the disjunction `isErrorMessageDisplayed` returns: the standard error, the container or the banner is visible, or the generic loop meets a displayed element |
| CheckoutStepOnePage.IsErrorMessageDisplayed | src/main/java/com/saucedemo/pages/CheckoutStepOnePage.java:126-183 | true exactly when the standard error, the container or the banner is visible, or the generic loop reaches a displayed element |
| CheckoutStepOnePage.AnyDisplayed | src/main/java/com/saucedemo/pages/CheckoutStepOnePage.java:163-170 | the `break` loop computes `AnyShown` |
| CheckoutStepOnePage.FirstReportText | src/main/java/com/saucedemo/pages/CheckoutStepOnePage.java:225-231 | the generic loop yields a text exactly when it reaches a reporting element; the text is non-empty and belongs to the first one |
| CheckoutStepOnePage.ErrorText | src/main/java/com/saucedemo/pages/CheckoutStepOnePage.java:186-250 | a non-empty text comes only from a displayed error or heading; with neither, the result is "" |
| CheckoutStepOnePage.FirstVisibleCandidateDecides | src/main/java/com/saucedemo/pages/CheckoutStepOnePage.java:190-218 | the first visible fixed candidate in priority order (standard, container, banner) decides the text, whatever the rest of the page holds |
| CheckoutStepOnePage.GenericFallbackDecides | src/main/java/com/saucedemo/pages/CheckoutStepOnePage.java:220-234 | with no fixed candidate visible, a generic match with non-blank text supplies the text, trimmed, from the first such element |
| CheckoutStepOnePage.HeadingFallbackDecides | src/main/java/com/saucedemo/pages/CheckoutStepOnePage.java:236-249 | with no fixed candidate visible and no generic match showing text, the result is the trimmed text of a displayed heading, else ""; it is empty exactly when the heading is missing, hidden or blank |
| CheckoutStepOnePage.GetErrorMessageText | src/main/java/com/saucedemo/pages/CheckoutStepOnePage.java:186-250 | the chain of guarded early returns computes `ErrorText` |
| CheckoutStepOnePage.FirstReportedText | src/main/java/com/saucedemo/pages/CheckoutStepOnePage.java:225-231 | the early-return loop computes `FirstReportText` |
| CheckoutStepOnePage.ErrorMessageContains | src/main/java/com/saucedemo/pages/CheckoutStepOnePage.java:253-264 | a null expected text gives false, since its exception is caught; true means the lower-cased text contains the lower-cased expected text |
| CheckoutStepOnePage.ErrorMessageContainsIgnoresCase | src/main/java/com/saucedemo/pages/CheckoutStepOnePage.java:256 | the case of the expected text never matters |
| CheckoutStepOnePage.ExactTextIsContained | src/main/java/com/saucedemo/pages/CheckoutStepOnePage.java:256 | text shown verbatim always passes |
| CheckoutStepOnePage.ContainsNeedsAnError | src/main/java/com/saucedemo/pages/CheckoutStepOnePage.java:253-264 | a non-empty expected text passes only when an error or heading is shown; the empty text always passes |
| CheckoutStepOnePage.FieldKindOf | src/main/java/com/saucedemo/pages/CheckoutStepOnePage.java:271-289 | the `switch` on the lower-cased field name picks each branch for exactly its listed aliases |
| CheckoutStepOnePage.Keywords | src/main/java/com/saucedemo/pages/CheckoutStepOnePage.java:274-285 | the exact-case strings each known branch looks for: "First Name"/"firstName", "Last Name"/"lastName", "Postal Code"/"Zip Code"/"postalCode", and none for other names |
| CheckoutStepOnePage.HasFieldErrorIn | src/main/java/com/saucedemo/pages/CheckoutStepOnePage.java:271-289 | a known field looks for its exact-case keywords; any other name is a case-insensitive substring test |
| CheckoutStepOnePage.HasSpecificFieldError | src/main/java/com/saucedemo/pages/CheckoutStepOnePage.java:267-293 | a non-empty field name is found only in a non-empty error text, and the empty name is always found |
| CheckoutStepOnePage.EmptyTextHasNoFieldError | src/main/java/com/saucedemo/pages/CheckoutStepOnePage.java:267-293 | with no error text, only the empty field name reports an error |
| CheckoutStepOnePage.FieldNameCaseIsIgnored | src/main/java/com/saucedemo/pages/CheckoutStepOnePage.java:271 | field names that differ only in case choose the same branch and get the same answer |
| CheckoutStepOnePage.PostalCodeAliases | src/main/java/com/saucedemo/pages/CheckoutStepOnePage.java:280-283 | "zip code", "Zip Code", "postalCode" and "postal code" all choose the postal-code branch |
| CheckoutStepOnePage.FieldKeywordsAreCaseSensitive | src/main/java/com/saucedemo/pages/CheckoutStepOnePage.java:272-275 | "error: first name is required" names no first-name error, though it contains "first name" |
| CheckoutStepOnePage.StorefrontFirstNameMessage | src/main/java/com/saucedemo/pages/CheckoutStepOnePage.java:272-275 | the storefront's "Error: First Name is required" is a first-name error under "firstName" and "First Name" |
| CheckoutStepOnePage.AreFieldValidationErrorsDisplayed | src/main/java/com/saucedemo/pages/CheckoutStepOnePage.java:296-323 | true exactly when the combined lookup answers with at least one element and every one of them answers `isDisplayed()`, whatever it answers; a throwing lookup or handle gives false |
| CheckoutStepOnePage.FieldValue | src/main/java/com/saucedemo/pages/CheckoutStepOnePage.java:326-359 | a field that cannot be found reads as ""; a non-empty result is the field's non-null `value` attribute |
| CheckoutStepOnePage.FieldValueReadsAttribute | src/main/java/com/saucedemo/pages/CheckoutStepOnePage.java:326-359 | a found field whose `value` attribute holds `v` reads back as `v` |
| CheckoutStepOnePage.ButtonEnabled | src/main/java/com/saucedemo/pages/CheckoutStepOnePage.java:375-396 | true exactly when the button is found, answers, and reports itself enabled; a missing button or a throwing handle gives false |
| CheckoutStepOnePage.WaitForErrorMessage | src/main/java/com/saucedemo/pages/CheckoutStepOnePage.java:399-414 | at most ten checks; true exactly when one of the first ten snapshots shows an error, stopping at the first such one; false after all ten |

## Left out

- `Thread.sleep`, and the `InterruptedException` paths it opens, are not modelled. Waiting is the move from snapshot `at(i)` to `at(i + 1)`, and an interrupt never happens.
- Logging (SLF4J) and the Allure `@Step` annotations are left out. They have no effect on any result.
- The actions `enterFirstName`, `enterLastName`, `enterPostalCode`, `fillCheckoutInformation`, `clickContinueButton`, `clickCancelButton` and `clearAllFields` are not modelled. They only drive the browser, which the model observes as a sequence of snapshots.
- `BasePage` is not part of this model.
  - `isElementDisplayed` is taken to be "the element is found and displayed, with an exception read as false".
  - `getElementText` is taken to be the element's rendered text.
  - `getCurrentUrl` is taken to be the page's URL.
- CSS selectors are opaque keys, and the browser is a snapshot map. Matching CSS against a DOM, and how WebDriver renders text, are left out.
- PageFactory proxies are never null. The `!= null` tests in `isErrorMessageDisplayed` and `getErrorMessageText` are therefore always true, and are not modelled.
- `hasSpecificFieldError` on a null field throws `NullPointerException` in `field.toLowerCase()`, so it has no result. The model takes a non-null field.
- `String.toLowerCase` is modelled for ASCII letters only. Locale-specific and other Unicode case mappings are left out. `trim` strips characters up to U+0020, as Java does.
- `ValidationScenarios` only holds data fixtures for tests. The `TestData` constants appear as the concrete inputs of the postal-code lemmas.
- The inner loops of `isErrorMessageDisplayed`, `getErrorMessageText` and `getAllErrorMessages` are separate methods (`AnyDisplayed`, `FirstReportedText`, `AppendDisplayedTexts`), called where the source's loop is.
- FormValidationHelper.WaitForErrorMessage: models the corrected bound `ProbeBudget`, not the overflowing `timeoutSeconds * 2`. The bound as written is modelled and compared in `ProbesAsWritten` and `ProbeBoundOverflows`.
- CheckoutStepOnePage.HasSpecificFieldError: only states facts about the empty field name and the empty error text. It is otherwise `HasFieldErrorIn` applied to `ErrorText`, which carries the full characterisation.

## Findings

| source | as written | input that shows it | evidently intended | confidence | as-written member | corrected member |
|---|---|---|---|---|---|---|
| src/main/java/com/swaglabs/utils/FormValidationHelper.java:237 | the loop bound `timeoutSeconds * 2` is computed in 32-bit `int` and wraps | `timeoutSeconds = 1073741824` gives bound 0 (no probe at all); `timeoutSeconds = -2147483647` gives bound 2 (two probes for a negative timeout) | two probes per second of a positive timeout, none for zero or negative | not executed | FormValidationHelper.ProbeBoundOverflows | FormValidationHelper.ProbeBudgetMatchesBelowOverflow |
