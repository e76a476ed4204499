/**
 * FormValidationHelper: recognising the checkout form's error messages by
 * pattern, checking the format of a postal code, and collecting, polling for
 * and inspecting error elements on a page snapshot.
 */
module FormValidationHelper {
  import opened JavaLang
  import opened Browser

  // ---------------------------------------------------------------------------
  // Error-message pattern tables

  const FirstNameErrorPatterns: seq<string> := [
    "First Name is required",
    "Error: First Name is required",
    "Please enter your first name",
    "First name cannot be empty"
  ]

  const LastNameErrorPatterns: seq<string> := [
    "Last Name is required",
    "Error: Last Name is required",
    "Please enter your last name",
    "Last name cannot be empty"
  ]

  const PostalCodeErrorPatterns: seq<string> := [
    "Postal Code is required",
    "Error: Postal Code is required",
    "Zip Code is required",
    "Error: Zip Code is required",
    "Please enter your postal code"
  ]

  /** Early-exit search: does the normalised message contain some pattern,
      lower-cased? */
  function SomePatternIn(normalized: string, patterns: seq<string>): (r: bool)
    ensures r <==> exists k :: 0 <= k < |patterns| && Contains(normalized, Lower(patterns[k]))
  {
    if patterns == [] then false
    else Contains(normalized, Lower(patterns[0])) || SomePatternIn(normalized, patterns[1..])
  }

  /** A null or blank message matches nothing; otherwise the message, lower-cased
      and trimmed, must contain one of the patterns, lower-cased. */
  function ContainsAnyPattern(actualMessage: Nullable<string>, patterns: seq<string>): (r: bool)
    ensures actualMessage.Null? || IsBlank(actualMessage.value) ==> !r
    ensures patterns == [] ==> !r
    ensures r <==> actualMessage.NonNull? && !IsBlank(actualMessage.value) &&
                   exists k :: 0 <= k < |patterns| && Contains(Trim(Lower(actualMessage.value)), Lower(patterns[k]))
  {
    if actualMessage.Null? || Trim(actualMessage.value) == [] then false
    else SomePatternIn(Trim(Lower(actualMessage.value)), patterns)
  }

  function IsValidFirstNameError(errorMessage: Nullable<string>): bool
  {
    ContainsAnyPattern(errorMessage, FirstNameErrorPatterns)
  }

  function IsValidLastNameError(errorMessage: Nullable<string>): bool
  {
    ContainsAnyPattern(errorMessage, LastNameErrorPatterns)
  }

  function IsValidPostalCodeError(errorMessage: Nullable<string>): bool
  {
    ContainsAnyPattern(errorMessage, PostalCodeErrorPatterns)
  }

  /** The verdict does not depend on the case of the message. */
  lemma ContainsAnyPatternIgnoresCase(m1: string, m2: string, patterns: seq<string>)
    requires Lower(m1) == Lower(m2)
    ensures ContainsAnyPattern(NonNull(m1), patterns) == ContainsAnyPattern(NonNull(m2), patterns)
  {
    LowerKeepsBlank(m1);
    LowerKeepsBlank(m2);
  }

  /** A table entry that has no blank at either end is accepted as its own
      message. */
  lemma PatternMatchesItself(patterns: seq<string>, k: int)
    requires 0 <= k < |patterns| && patterns[k] != []
    requires !IsTrimmable(patterns[k][0]) && !IsTrimmable(patterns[k][|patterns[k]| - 1])
    ensures ContainsAnyPattern(NonNull(patterns[k]), patterns)
  {
    var m := patterns[k];
    TrimOfTrimmed(Lower(m));
    ContainsItself(Lower(m));
  }

  /** Every entry of every table is accepted by that table's check; in
      particular both "Postal Code is required" and "Zip Code is required"
      are postal-code errors. */
  lemma TableEntriesAreAccepted()
    ensures forall k :: 0 <= k < |FirstNameErrorPatterns| ==> IsValidFirstNameError(NonNull(FirstNameErrorPatterns[k]))
    ensures forall k :: 0 <= k < |LastNameErrorPatterns| ==> IsValidLastNameError(NonNull(LastNameErrorPatterns[k]))
    ensures forall k :: 0 <= k < |PostalCodeErrorPatterns| ==> IsValidPostalCodeError(NonNull(PostalCodeErrorPatterns[k]))
    ensures IsValidPostalCodeError(NonNull("Zip Code is required"))
    ensures IsValidPostalCodeError(NonNull("Postal Code is required"))
  {
    forall k | 0 <= k < |FirstNameErrorPatterns| ensures IsValidFirstNameError(NonNull(FirstNameErrorPatterns[k])) {
      PatternMatchesItself(FirstNameErrorPatterns, k);
    }
    forall k | 0 <= k < |LastNameErrorPatterns| ensures IsValidLastNameError(NonNull(LastNameErrorPatterns[k])) {
      PatternMatchesItself(LastNameErrorPatterns, k);
    }
    forall k | 0 <= k < |PostalCodeErrorPatterns| ensures IsValidPostalCodeError(NonNull(PostalCodeErrorPatterns[k])) {
      PatternMatchesItself(PostalCodeErrorPatterns, k);
    }
    assert PostalCodeErrorPatterns[2] == "Zip Code is required";
    assert PostalCodeErrorPatterns[0] == "Postal Code is required";
  }

  /** The check is case-insensitive in the message: the upper-case rendering
      of a postal-code error is still recognised. */
  lemma UpperCasePostalErrorAccepted(m: string)
    requires m == "POSTAL CODE IS REQUIRED"
    ensures IsValidPostalCodeError(NonNull(m))
  {
    var entry := PostalCodeErrorPatterns[0];
    PatternMatchesItself(PostalCodeErrorPatterns, 0);
    SameLowering(m, entry);
    ContainsAnyPatternIgnoresCase(m, entry, PostalCodeErrorPatterns);
  }

  lemma SameLowering(m: string, entry: string)
    requires m == "POSTAL CODE IS REQUIRED" && entry == "Postal Code is required"
    ensures Lower(m) == Lower(entry)
  {
    assert m == "POSTAL CODE" + " IS REQUIRED";
    assert entry == "Postal Code" + " is required";
    LowerAppend("POSTAL CODE", " IS REQUIRED");
    LowerAppend("Postal Code", " is required");
    assert Lower("POSTAL CODE") == Lower("Postal Code");
    assert Lower(" IS REQUIRED") == Lower(" is required");
  }

  /** If every pattern holds the letter `lo` (in either case) and the message
      holds it in neither case, the message matches no pattern. */
  lemma MissingLetterRejects(m: string, patterns: seq<string>, lo: char, up: char)
    requires 'a' <= lo <= 'z' && up as int == lo as int - 32
    requires forall k :: 0 <= k < |patterns| ==> lo in patterns[k] || up in patterns[k]
    requires lo !in m && up !in m
    ensures !ContainsAnyPattern(NonNull(m), patterns)
  {
    LetterMissingAfterLowering(m, lo, up);
    LetterMissingAfterTrim(Lower(m), lo);
    LetterMissingRulesOutPatterns(Trim(Lower(m)), patterns, lo, up);
  }

  lemma LetterMissingAfterLowering(m: string, lo: char, up: char)
    requires 'a' <= lo <= 'z' && up as int == lo as int - 32
    requires lo !in m && up !in m
    ensures lo !in Lower(m)
  {
    forall i | 0 <= i < |m| ensures Lower(m)[i] != lo {
      assert m[i] != lo && m[i] != up;
    }
  }

  lemma LetterMissingAfterTrim(m: string, lo: char)
    requires lo !in m
    ensures lo !in Trim(m)
  {
    var n := Trim(m);
    var i :| 0 <= i <= |m| - |n| && InfixAt(m, n, i);
    forall j | 0 <= j < |n| ensures n[j] != lo {
      assert n[j] == m[i..i + |n|][j] == m[i + j];
    }
  }

  lemma LetterMissingRulesOutPatterns(n: string, patterns: seq<string>, lo: char, up: char)
    requires 'a' <= lo <= 'z' && up as int == lo as int - 32
    requires forall k :: 0 <= k < |patterns| ==> lo in patterns[k] || up in patterns[k]
    requires lo !in n
    ensures !SomePatternIn(n, patterns)
  {
    forall k | 0 <= k < |patterns| ensures !Contains(n, Lower(patterns[k])) {
      var pk := patterns[k];
      var j :| 0 <= j < |pk| && (pk[j] == lo || pk[j] == up);
      assert Lower(pk)[j] == lo;
      MissingCharRulesOut(n, Lower(pk), lo);
    }
  }

  /** A message without the letter F is no first-name error, one without L is
      no last-name error, one without P is no postal-code error, and one
      without M is neither a first-name nor a last-name error. */
  lemma MessagesMissingKeyLetters(m: string)
    ensures 'f' !in m && 'F' !in m ==> !IsValidFirstNameError(NonNull(m))
    ensures 'l' !in m && 'L' !in m ==> !IsValidLastNameError(NonNull(m))
    ensures 'p' !in m && 'P' !in m ==> !IsValidPostalCodeError(NonNull(m))
    ensures 'm' !in m && 'M' !in m ==> !IsValidFirstNameError(NonNull(m)) && !IsValidLastNameError(NonNull(m))
  {
    LetterInEveryFirstNamePattern();
    LetterInEveryLastNamePattern();
    LetterInEveryPostalCodePattern();
    if 'f' !in m && 'F' !in m {
      MissingLetterRejects(m, FirstNameErrorPatterns, 'f', 'F');
    }
    if 'l' !in m && 'L' !in m {
      MissingLetterRejects(m, LastNameErrorPatterns, 'l', 'L');
    }
    if 'p' !in m && 'P' !in m {
      MissingLetterRejects(m, PostalCodeErrorPatterns, 'p', 'P');
    }
    if 'm' !in m && 'M' !in m {
      MissingLetterRejects(m, FirstNameErrorPatterns, 'm', 'M');
      MissingLetterRejects(m, LastNameErrorPatterns, 'm', 'M');
    }
  }

  /** The storefront's first-name message is a first-name error and nothing
      else. */
  lemma FirstNameMessageTellsApart(m: string)
    requires m == "Error: First Name is required"
    ensures IsValidFirstNameError(NonNull(m))
    ensures !IsValidLastNameError(NonNull(m)) && !IsValidPostalCodeError(NonNull(m))
  {
    FirstNameMessageAccepted(m);
    FirstNameMessageRejectedElsewhere(m);
  }

  lemma FirstNameMessageAccepted(m: string)
    requires m == "Error: First Name is required"
    ensures IsValidFirstNameError(NonNull(m))
  {
    assert m == FirstNameErrorPatterns[1];
    PatternMatchesItself(FirstNameErrorPatterns, 1);
  }

  lemma FirstNameMessageRejectedElsewhere(m: string)
    requires m == "Error: First Name is required"
    ensures !IsValidLastNameError(NonNull(m)) && !IsValidPostalCodeError(NonNull(m))
  {
    LettersOfFirstNameMessage(m);
    LetterInEveryLastNamePattern();
    LetterInEveryPostalCodePattern();
    MissingLetterRejects(m, LastNameErrorPatterns, 'l', 'L');
    MissingLetterRejects(m, PostalCodeErrorPatterns, 'p', 'P');
  }

  lemma LettersOfFirstNameMessage(m: string)
    requires m == "Error: First Name is required"
    ensures 'l' !in m && 'L' !in m && 'p' !in m && 'P' !in m
  {
    CharsOfFirstNameMessage(m);
    CharsAvoided(m, "lLpP");
  }

  lemma CharsOfFirstNameMessage(m: string)
    requires m == "Error: First Name is required"
    ensures forall i :: 0 <= i < |m| ==> m[i] !in "lLpP"
  {
  }

  /** The storefront's last-name message is a last-name error and nothing
      else. */
  lemma LastNameMessageTellsApart(m: string)
    requires m == "Error: Last Name is required"
    ensures IsValidLastNameError(NonNull(m))
    ensures !IsValidFirstNameError(NonNull(m)) && !IsValidPostalCodeError(NonNull(m))
  {
    LastNameMessageAccepted(m);
    LastNameMessageRejectedElsewhere(m);
  }

  lemma LastNameMessageAccepted(m: string)
    requires m == "Error: Last Name is required"
    ensures IsValidLastNameError(NonNull(m))
  {
    assert m == LastNameErrorPatterns[1];
    PatternMatchesItself(LastNameErrorPatterns, 1);
  }

  lemma LastNameMessageRejectedElsewhere(m: string)
    requires m == "Error: Last Name is required"
    ensures !IsValidFirstNameError(NonNull(m)) && !IsValidPostalCodeError(NonNull(m))
  {
    LettersOfLastNameMessage(m);
    LetterInEveryFirstNamePattern();
    LetterInEveryPostalCodePattern();
    MissingLetterRejects(m, FirstNameErrorPatterns, 'f', 'F');
    MissingLetterRejects(m, PostalCodeErrorPatterns, 'p', 'P');
  }

  lemma LettersOfLastNameMessage(m: string)
    requires m == "Error: Last Name is required"
    ensures 'f' !in m && 'F' !in m && 'p' !in m && 'P' !in m
  {
    CharsOfLastNameMessage(m);
    CharsAvoided(m, "fFpP");
  }

  lemma CharsOfLastNameMessage(m: string)
    requires m == "Error: Last Name is required"
    ensures forall i :: 0 <= i < |m| ==> m[i] !in "fFpP"
  {
  }

  /** The storefront's postal-code message is a postal-code error and
      nothing else. */
  lemma PostalCodeMessageTellsApart(m: string)
    requires m == "Error: Postal Code is required"
    ensures IsValidPostalCodeError(NonNull(m))
    ensures !IsValidFirstNameError(NonNull(m)) && !IsValidLastNameError(NonNull(m))
  {
    PostalCodeMessageAccepted(m);
    PostalCodeMessageRejectedElsewhere(m);
  }

  lemma PostalCodeMessageAccepted(m: string)
    requires m == "Error: Postal Code is required"
    ensures IsValidPostalCodeError(NonNull(m))
  {
    assert m == PostalCodeErrorPatterns[1];
    PatternMatchesItself(PostalCodeErrorPatterns, 1);
  }

  lemma PostalCodeMessageRejectedElsewhere(m: string)
    requires m == "Error: Postal Code is required"
    ensures !IsValidFirstNameError(NonNull(m)) && !IsValidLastNameError(NonNull(m))
  {
    LettersOfPostalCodeMessage(m);
    LetterInEveryFirstNamePattern();
    LetterInEveryLastNamePattern();
    MissingLetterRejects(m, FirstNameErrorPatterns, 'f', 'F');
    MissingLetterRejects(m, LastNameErrorPatterns, 'm', 'M');
  }

  lemma LettersOfPostalCodeMessage(m: string)
    requires m == "Error: Postal Code is required"
    ensures 'f' !in m && 'F' !in m && 'm' !in m && 'M' !in m
  {
    CharsOfPostalCodeMessage(m);
    CharsAvoided(m, "fFmM");
  }

  lemma CharsOfPostalCodeMessage(m: string)
    requires m == "Error: Postal Code is required"
    ensures forall i :: 0 <= i < |m| ==> m[i] !in "fFmM"
  {
  }

  lemma LetterInEveryFirstNamePattern()
    ensures forall k :: 0 <= k < |FirstNameErrorPatterns| ==> 'f' in FirstNameErrorPatterns[k] || 'F' in FirstNameErrorPatterns[k]
    ensures forall k :: 0 <= k < |FirstNameErrorPatterns| ==> 'm' in FirstNameErrorPatterns[k] || 'M' in FirstNameErrorPatterns[k]
  {
    var t := FirstNameErrorPatterns;
    forall k | 0 <= k < |t| ensures ('f' in t[k] || 'F' in t[k]) && ('m' in t[k] || 'M' in t[k]) {
      if k == 0 { LettersAt(t[k], 0, 'F', 8, 'm'); }
      else if k == 1 { LettersAt(t[k], 7, 'F', 15, 'm'); }
      else if k == 2 { LettersAt(t[k], 18, 'f', 26, 'm'); }
      else { LettersAt(t[k], 0, 'F', 8, 'm'); }
    }
  }

  lemma LetterInEveryLastNamePattern()
    ensures forall k :: 0 <= k < |LastNameErrorPatterns| ==> 'l' in LastNameErrorPatterns[k] || 'L' in LastNameErrorPatterns[k]
    ensures forall k :: 0 <= k < |LastNameErrorPatterns| ==> 'm' in LastNameErrorPatterns[k] || 'M' in LastNameErrorPatterns[k]
  {
    var t := LastNameErrorPatterns;
    forall k | 0 <= k < |t| ensures ('l' in t[k] || 'L' in t[k]) && ('m' in t[k] || 'M' in t[k]) {
      if k == 0 { LettersAt(t[k], 0, 'L', 7, 'm'); }
      else if k == 1 { LettersAt(t[k], 7, 'L', 14, 'm'); }
      else if k == 2 { LettersAt(t[k], 18, 'l', 25, 'm'); }
      else { LettersAt(t[k], 0, 'L', 7, 'm'); }
    }
  }

  lemma LetterInEveryPostalCodePattern()
    ensures forall k :: 0 <= k < |PostalCodeErrorPatterns| ==> 'p' in PostalCodeErrorPatterns[k] || 'P' in PostalCodeErrorPatterns[k]
  {
    var t := PostalCodeErrorPatterns;
    forall k | 0 <= k < |t| ensures 'p' in t[k] || 'P' in t[k] {
      if k == 0 { LettersAt(t[k], 0, 'P', 0, 'P'); }
      else if k == 1 { LettersAt(t[k], 7, 'P', 7, 'P'); }
      else if k == 2 { LettersAt(t[k], 2, 'p', 2, 'p'); }
      else if k == 3 { LettersAt(t[k], 9, 'p', 9, 'p'); }
      else { LettersAt(t[k], 0, 'P', 0, 'P'); }
    }
  }

  /** The characters at two positions of `s` occur in `s`. */
  lemma LettersAt(s: string, i: nat, c: char, j: nat, d: char)
    requires i < |s| && s[i] == c && j < |s| && s[j] == d
    ensures c in s && d in s
  {
  }

  /** The "Error: "-prefixed first-name entry never changes a verdict: it
      contains the entry before it. */
  lemma FirstNamePrefixedPatternIsRedundant(m: Nullable<string>)
    ensures IsValidFirstNameError(m) == ContainsAnyPattern(m, Without(FirstNameErrorPatterns, 1))
  {
    PrefixedFirstNameEntry();
    RedundantPatternDropped(m, FirstNameErrorPatterns, 1, 0);
  }

  lemma PrefixedFirstNameEntry()
    ensures Contains(FirstNameErrorPatterns[1], FirstNameErrorPatterns[0])
  {
    PrefixedEntry(FirstNameErrorPatterns, 1, 0);
  }

  /** The same for the last-name table. */
  lemma LastNamePrefixedPatternIsRedundant(m: Nullable<string>)
    ensures IsValidLastNameError(m) == ContainsAnyPattern(m, Without(LastNameErrorPatterns, 1))
  {
    PrefixedLastNameEntry();
    RedundantPatternDropped(m, LastNameErrorPatterns, 1, 0);
  }

  lemma PrefixedLastNameEntry()
    ensures Contains(LastNameErrorPatterns[1], LastNameErrorPatterns[0])
  {
    PrefixedEntry(LastNameErrorPatterns, 1, 0);
  }

  /** The same for the postal-code table, whose prefixed entries contain
      "Postal Code is required" and "Zip Code is required". */
  lemma PostalCodePrefixedPatternsAreRedundant(m: Nullable<string>)
    ensures IsValidPostalCodeError(m) == ContainsAnyPattern(m, Without(Without(PostalCodeErrorPatterns, 3), 1))
  {
    PrefixedPostalEntries();
    var shorter := Without(PostalCodeErrorPatterns, 3);
    assert shorter[0] == PostalCodeErrorPatterns[0] && shorter[1] == PostalCodeErrorPatterns[1];
    RedundantPatternDropped(m, PostalCodeErrorPatterns, 3, 2);
    RedundantPatternDropped(m, shorter, 1, 0);
  }

  lemma PrefixedPostalEntries()
    ensures Contains(PostalCodeErrorPatterns[1], PostalCodeErrorPatterns[0])
    ensures Contains(PostalCodeErrorPatterns[3], PostalCodeErrorPatterns[2])
  {
    PrefixedPostalEntry();
    PrefixedZipEntry();
  }

  lemma PrefixedPostalEntry()
    ensures Contains(PostalCodeErrorPatterns[1], PostalCodeErrorPatterns[0])
  {
    PrefixedEntry(PostalCodeErrorPatterns, 1, 0);
  }

  lemma PrefixedZipEntry()
    ensures Contains(PostalCodeErrorPatterns[3], PostalCodeErrorPatterns[2])
  {
    PrefixedEntry(PostalCodeErrorPatterns, 3, 2);
  }

  /** Entry `k` is entry `j` with "Error: " in front, so it contains it. */
  lemma PrefixedEntry(patterns: seq<string>, k: nat, j: nat)
    requires k < |patterns| && j < |patterns|
    requires patterns[k] == "Error: " + patterns[j]
    ensures Contains(patterns[k], patterns[j])
  {
    PrefixedContains("Error: ", patterns[j]);
  }

  /** `patterns` with the entry at `k` removed. */
  function Without(patterns: seq<string>, k: nat): (r: seq<string>)
    requires k < |patterns|
    ensures |r| == |patterns| - 1
    ensures forall i :: 0 <= i < k ==> r[i] == patterns[i]
    ensures forall i :: k <= i < |r| ==> r[i] == patterns[i + 1]
  {
    patterns[..k] + patterns[k + 1..]
  }

  lemma PrefixedContains(prefix: string, entry: string)
    ensures Contains(prefix + entry, entry)
  {
    assert InfixAt(prefix + entry, entry, |prefix|);
  }

  /** An entry that contains another entry of the same table can be dropped
      without changing any verdict. */
  lemma RedundantPatternDropped(m: Nullable<string>, patterns: seq<string>, k: nat, j: nat)
    requires k < |patterns| && j < |patterns| && j != k
    requires Contains(patterns[k], patterns[j])
    ensures ContainsAnyPattern(m, patterns) == ContainsAnyPattern(m, Without(patterns, k))
  {
    if m.NonNull? && !IsBlank(m.value) {
      var n := Trim(Lower(m.value));
      DroppedPatternMatchesLess(n, patterns, k);
      KeptPatternsStillMatch(n, patterns, k, j);
    }
  }

  lemma DroppedPatternMatchesLess(n: string, patterns: seq<string>, k: nat)
    requires k < |patterns|
    ensures SomePatternIn(n, Without(patterns, k)) ==> SomePatternIn(n, patterns)
  {
    var rest := Without(patterns, k);
    if SomePatternIn(n, rest) {
      var i :| 0 <= i < |rest| && Contains(n, Lower(rest[i]));
      var i' := if i < k then i else i + 1;
      assert rest[i] == patterns[i'];
    }
  }

  lemma KeptPatternsStillMatch(n: string, patterns: seq<string>, k: nat, j: nat)
    requires k < |patterns| && j < |patterns| && j != k
    requires Contains(patterns[k], patterns[j])
    ensures SomePatternIn(n, patterns) ==> SomePatternIn(n, Without(patterns, k))
  {
    var rest := Without(patterns, k);
    if SomePatternIn(n, patterns) {
      var i :| 0 <= i < |patterns| && Contains(n, Lower(patterns[i]));
      if i == k {
        LowerKeepsContains(patterns[k], patterns[j]);
        ContainsTransitive(n, Lower(patterns[k]), Lower(patterns[j]));
        i := j;
      }
      var i' := if i < k then i else i - 1;
      assert rest[i'] == patterns[i];
    }
  }

  // ---------------------------------------------------------------------------
  // Postal-code format

  /** `\s` in java.util.regex: space, tab, line feed, vertical tab, form feed,
      carriage return. */
  predicate IsRegexSpace(c: char)
  {
    c == ' ' || c == '\t' || c == '\n' || c == '\r' || c as int == 0x0B || c as int == 0x0C
  }

  /** What `replaceAll("[\\s-]", "")` deletes. */
  predicate IsSeparator(c: char)
  {
    IsRegexSpace(c) || c == '-'
  }

  predicate IsAsciiAlphanumeric(c: char)
  {
    'a' <= c <= 'z' || 'A' <= c <= 'Z' || '0' <= c <= '9'
  }

  /** `s.replaceAll("[\\s-]", "")`: `s` with every separator deleted and the
      rest kept in order. */
  function RemoveSeparators(s: string): (r: string)
    ensures |r| <= |s|
    ensures forall i :: 0 <= i < |r| ==> !IsSeparator(r[i])
    ensures forall c :: c in r <==> c in s && !IsSeparator(c)
  {
    if s == [] then []
    else if IsSeparator(s[0]) then RemoveSeparators(s[1..])
    else [s[0]] + RemoveSeparators(s[1..])
  }

  /** `matches("^[a-zA-Z0-9]{3,10}$")`. */
  predicate MatchesPostalPattern(s: string)
  {
    3 <= |s| <= 10 && forall i :: 0 <= i < |s| ==> IsAsciiAlphanumeric(s[i])
  }

  /** Null and blank input are invalid; otherwise the input with its spaces
      and hyphens deleted must be 3 to 10 ASCII letters and digits. */
  function IsValidPostalCodeFormat(postalCode: Nullable<string>): (r: bool)
    ensures postalCode.Null? ==> !r
    ensures postalCode.NonNull? && IsBlank(postalCode.value) ==> !r
    ensures r ==> 3 <= |RemoveSeparators(postalCode.value)| <= 10
    ensures r ==> forall c :: c in postalCode.value ==> IsAsciiAlphanumeric(c) || IsSeparator(c)
  {
    if postalCode.Null? || Trim(postalCode.value) == [] then false
    else MatchesPostalPattern(RemoveSeparators(postalCode.value))
  }

  lemma {:induction false} RemoveSeparatorsAppend(a: string, b: string)
    ensures RemoveSeparators(a + b) == RemoveSeparators(a) + RemoveSeparators(b)
  {
    if a == [] {
      assert a + b == b;
    } else {
      assert (a + b)[0] == a[0];
      assert (a + b)[1..] == a[1..] + b;
      RemoveSeparatorsAppend(a[1..], b);
      if !IsSeparator(a[0]) {
        assert [a[0]] + (RemoveSeparators(a[1..]) + RemoveSeparators(b))
            == ([a[0]] + RemoveSeparators(a[1..])) + RemoveSeparators(b);
      }
    }
  }

  lemma {:induction false} RemoveSeparatorsNone(s: string)
    requires forall i :: 0 <= i < |s| ==> !IsSeparator(s[i])
    ensures RemoveSeparators(s) == s
  {
    if s != [] {
      RemoveSeparatorsNone(s[1..]);
    }
  }

  /** The blank test before the pattern never decides anything on its own:
      a blank string fails the pattern too. */
  lemma BlankTestIsRedundant(s: string)
    ensures IsValidPostalCodeFormat(NonNull(s)) == MatchesPostalPattern(RemoveSeparators(s))
  {
  }

  /** Spaces and hyphens can be inserted anywhere without changing the
      verdict. */
  lemma SeparatorsDoNotMatter(a: string, sep: char, b: string)
    requires IsSeparator(sep)
    ensures IsValidPostalCodeFormat(NonNull(a + [sep] + b)) == IsValidPostalCodeFormat(NonNull(a + b))
  {
    var x := a + [sep] + b;
    RemoveSeparatorsAppend(a + [sep], b);
    RemoveSeparatorsAppend(a, [sep]);
    assert RemoveSeparators([sep]) == [] by {
      assert [sep][1..] == [];
    }
    assert RemoveSeparators(a + [sep]) == RemoveSeparators(a);
    RemoveSeparatorsAppend(a, b);
    assert RemoveSeparators(x) == RemoveSeparators(a + b);
    BlankTestIsRedundant(x);
    BlankTestIsRedundant(a + b);
  }

  /** A code of letters and digits only is valid exactly when its length is
      3 to 10. */
  lemma AlphanumericCodeVerdict(s: string)
    requires forall i :: 0 <= i < |s| ==> IsAsciiAlphanumeric(s[i])
    ensures IsValidPostalCodeFormat(NonNull(s)) <==> 3 <= |s| <= 10
  {
    RemoveSeparatorsNone(s);
  }

  /** A five-digit ZIP code passes. */
  lemma ZipCodePasses(s: string)
    requires s == "12345"
    ensures IsValidPostalCodeFormat(NonNull(s))
  {
    ZipCodeChars(s);
    AlphanumericCodeVerdict(s);
  }

  lemma ZipCodeChars(s: string)
    requires s == "12345"
    ensures |s| == 5 && forall i :: 0 <= i < |s| ==> IsAsciiAlphanumeric(s[i])
  {
  }

  /** A Canadian code passes. */
  lemma CanadianCodePasses(s: string)
    requires s == "K1A0A6"
    ensures IsValidPostalCodeFormat(NonNull(s))
  {
    CanadianCodeChars(s);
    AlphanumericCodeVerdict(s);
  }

  lemma CanadianCodeChars(s: string)
    requires s == "K1A0A6"
    ensures |s| == 6 && forall i :: 0 <= i < |s| ==> IsAsciiAlphanumeric(s[i])
  {
  }

  /** Two characters are too few. */
  lemma TooShortCodeFails(s: string)
    requires s == "12"
    ensures !IsValidPostalCodeFormat(NonNull(s))
  {
    TooShortCodeChars(s);
    AlphanumericCodeVerdict(s);
  }

  lemma TooShortCodeChars(s: string)
    requires s == "12"
    ensures |s| == 2 && forall i :: 0 <= i < |s| ==> IsAsciiAlphanumeric(s[i])
  {
  }

  /** Fifteen characters are too many. */
  lemma TooLongCodeFails(s: string)
    requires s == "123456789012345"
    ensures !IsValidPostalCodeFormat(NonNull(s))
  {
    TooLongCodeChars(s);
    AlphanumericCodeVerdict(s);
  }

  lemma TooLongCodeChars(s: string)
    requires s == "123456789012345"
    ensures |s| == 15 && forall i :: 0 <= i < |s| ==> IsAsciiAlphanumeric(s[i])
  {
  }

  /** A hyphenated ZIP+4 code passes. */
  lemma HyphenatedCodePasses(s: string)
    requires s == "12345-6789"
    ensures IsValidPostalCodeFormat(NonNull(s))
  {
    var a, b := "12345", "6789";
    HyphenatedCodeParts(s, a, b);
    SeparatorsDoNotMatter(a, '-', b);
    AlphanumericCodeVerdict(a + b);
  }

  lemma HyphenatedCodeParts(s: string, a: string, b: string)
    requires s == "12345-6789" && a == "12345" && b == "6789"
    ensures s == a + ['-'] + b && |a + b| == 9
    ensures forall i :: 0 <= i < |a + b| ==> IsAsciiAlphanumeric((a + b)[i])
  {
  }

  /** A British code with an inner space passes. */
  lemma SpacedCodePasses(s: string)
    requires s == "SW1A 1AA"
    ensures IsValidPostalCodeFormat(NonNull(s))
  {
    var a, b := "SW1A", "1AA";
    SpacedCodeParts(s, a, b);
    SeparatorsDoNotMatter(a, ' ', b);
    AlphanumericCodeVerdict(a + b);
  }

  lemma SpacedCodeParts(s: string, a: string, b: string)
    requires s == "SW1A 1AA" && a == "SW1A" && b == "1AA"
    ensures s == a + [' '] + b && |a + b| == 7
    ensures forall i :: 0 <= i < |a + b| ==> IsAsciiAlphanumeric((a + b)[i])
  {
  }

  /** Punctuation fails: no separator is removed and '!' is no letter or
      digit. */
  lemma PunctuationCodeFails(s: string)
    requires s == "!@#$%"
    ensures !IsValidPostalCodeFormat(NonNull(s))
  {
    assert s[0] == '!';
    assert !IsAsciiAlphanumeric(s[0]) && !IsSeparator(s[0]);
  }

  // ---------------------------------------------------------------------------
  // Field error styling

  /** The five selectors tried for one field, in order. */
  function StylingSelectors(fieldDataTest: string): seq<string>
  {
    var key := "[data-test='" + fieldDataTest + "']";
    [key + ".error", key + ":invalid", key + "[aria-invalid='true']", key + ".field-error", key + "[class*='error']"]
  }

  /** True exactly when one of the five selectors finds a displayed element; a
      lookup that fails only skips its own selector. */
  method HasFieldErrorStyling(p: Page, fieldDataTest: string) returns (styled: bool)
    ensures styled <==> exists k :: 0 <= k < 5 && Visible(p, StylingSelectors(fieldDataTest)[k])
  {
    var errorSelectors := StylingSelectors(fieldDataTest);
    var k := 0;
    while k < |errorSelectors|
      invariant 0 <= k <= |errorSelectors|
      invariant forall j :: 0 <= j < k ==> !Visible(p, errorSelectors[j])
    {
      var found := FindElement(p, errorSelectors[k]);
      if found.Ok? {
        var shown := IsDisplayed(found.answer);
        if shown == Ok(true) {
          return true;
        }
      }
      k := k + 1;
    }
    return false;
  }

  // ---------------------------------------------------------------------------
  // Collecting every visible error message

  const ErrorSelectors: seq<string> := [
    ".error-message-container",
    "[data-test='error']",
    ".error",
    ".error-banner",
    ".field-error",
    ".validation-error",
    ".form-error"
  ]

  /** One element's trimmed text added to the accumulated messages: empty text
      and text already present are skipped, later texts follow " | ". */
  function AppendMessage(acc: string, text: string): string
  {
    if text == [] || Contains(acc, text) then acc
    else if acc == [] then text
    else acc + " | " + text
  }

  /** One pass of the inner loop over a live element: its trimmed text is
      appended only when it is displayed. */
  function StepElem(acc: string, e: Elem): string
  {
    if e.displayed then AppendMessage(acc, Trim(e.text)) else acc
  }

  /** The inner loop over one selector's matches; a handle that throws ends
      it, keeping what was appended so far. */
  function CollectElems(acc: string, es: seq<Elem>): string
    decreases |es|
  {
    if es == [] || !es[0].live then acc
    else CollectElems(StepElem(acc, es[0]), es[1..])
  }

  /** The outer loop over the selectors; a failed lookup skips its selector. */
  function CollectSelectors(acc: string, p: Page, selectors: seq<string>): string
    decreases |selectors|
  {
    if selectors == [] then acc
    else CollectSelectors(CollectElems(acc, Matches(p, selectors[0])), p, selectors[1..])
  }

  /** What `getAllErrorMessages` returns for a page. */
  function AllErrorMessages(p: Page): string
  {
    CollectSelectors([], p, ErrorSelectors)
  }

  /** Some selector's loop reaches an element that shows non-blank text. */
  ghost predicate PageReports(p: Page, selectors: seq<string>)
    decreases |selectors|
  {
    selectors != [] && (SomeReport(Matches(p, selectors[0])) || PageReports(p, selectors[1..]))
  }

  /** Neither end of the string is blank, so it neither starts nor ends with
      the separator " | ". */
  predicate CleanEnds(s: string)
  {
    s == [] || (!IsTrimmable(s[0]) && !IsTrimmable(s[|s| - 1]))
  }

  predicate IsPrefix(a: string, b: string)
  {
    |a| <= |b| && b[..|a|] == a
  }

  lemma AppendMessageFacts(acc: string, text: string)
    ensures IsPrefix(acc, AppendMessage(acc, text))
    ensures text != [] ==> Contains(AppendMessage(acc, text), text)
    ensures AppendMessage(acc, text) == [] <==> acc == [] && text == []
  {
    if text != [] && !Contains(acc, text) {
      if acc == [] {
        ContainsItself(text);
      } else {
        assert InfixAt(AppendMessage(acc, text), text, |acc| + 3);
      }
    }
  }

  lemma AppendMessageCleanEnds(acc: string, text: string)
    requires CleanEnds(acc) && CleanEnds(text)
    ensures CleanEnds(AppendMessage(acc, text))
  {
  }

  lemma PrefixTransitive(a: string, b: string, c: string)
    requires IsPrefix(a, b) && IsPrefix(b, c)
    ensures IsPrefix(a, c)
  {
    assert c[..|a|] == c[..|b|][..|a|];
  }

  lemma {:induction false} CollectElemsExtends(acc: string, es: seq<Elem>)
    ensures IsPrefix(acc, CollectElems(acc, es))
    decreases |es|
  {
    if es != [] && es[0].live {
      AppendMessageFacts(acc, Trim(es[0].text));
      CollectElemsExtends(StepElem(acc, es[0]), es[1..]);
      PrefixTransitive(acc, StepElem(acc, es[0]), CollectElems(acc, es));
    }
  }

  lemma {:induction false} CollectElemsCleanEnds(acc: string, es: seq<Elem>)
    requires CleanEnds(acc)
    ensures CleanEnds(CollectElems(acc, es))
    decreases |es|
  {
    if es != [] && es[0].live {
      var next := StepElem(acc, es[0]);
      StepElemCleanEnds(acc, es[0]);
      CollectElemsCleanEnds(next, es[1..]);
      assert CollectElems(acc, es) == CollectElems(next, es[1..]);
    }
  }

  lemma StepElemCleanEnds(acc: string, e: Elem)
    requires CleanEnds(acc)
    ensures CleanEnds(StepElem(acc, e))
  {
    if e.displayed {
      AppendMessageCleanEnds(acc, Trim(e.text));
    }
  }

  lemma {:induction false} CollectElemsEmpty(acc: string, es: seq<Elem>)
    ensures CollectElems(acc, es) == [] <==> acc == [] && !SomeReport(es)
    decreases |es|
  {
    if es != [] && es[0].live {
      AppendMessageFacts(acc, Trim(es[0].text));
      CollectElemsEmpty(StepElem(acc, es[0]), es[1..]);
    }
  }

  lemma {:induction false} CollectElemsCovers(acc: string, es: seq<Elem>)
    ensures forall i :: Reached(es, i) && Reports(es[i]) ==> Contains(CollectElems(acc, es), Trim(es[i].text))
    decreases |es|
  {
    if es != [] && es[0].live {
      var next := StepElem(acc, es[0]);
      var r := CollectElems(acc, es);
      AppendMessageFacts(acc, Trim(es[0].text));
      CollectElemsCovers(next, es[1..]);
      CollectElemsExtends(next, es[1..]);
      forall i | Reached(es, i) && Reports(es[i]) ensures Contains(r, Trim(es[i].text)) {
        if i == 0 {
          PrefixContainment(next, r, Trim(es[0].text));
        } else {
          assert Reached(es[1..], i - 1);
        }
      }
    }
  }

  lemma {:induction false} CollectSelectorsExtends(acc: string, p: Page, selectors: seq<string>)
    ensures IsPrefix(acc, CollectSelectors(acc, p, selectors))
    decreases |selectors|
  {
    if selectors != [] {
      var next := CollectElems(acc, Matches(p, selectors[0]));
      CollectElemsExtends(acc, Matches(p, selectors[0]));
      CollectSelectorsExtends(next, p, selectors[1..]);
      PrefixTransitive(acc, next, CollectSelectors(acc, p, selectors));
    }
  }

  lemma {:induction false} CollectSelectorsCleanEnds(acc: string, p: Page, selectors: seq<string>)
    requires CleanEnds(acc)
    ensures CleanEnds(CollectSelectors(acc, p, selectors))
    decreases |selectors|
  {
    if selectors != [] {
      var next := CollectElems(acc, Matches(p, selectors[0]));
      CollectElemsCleanEnds(acc, Matches(p, selectors[0]));
      CollectSelectorsCleanEnds(next, p, selectors[1..]);
    }
  }

  lemma {:induction false} CollectSelectorsEmpty(acc: string, p: Page, selectors: seq<string>)
    ensures CollectSelectors(acc, p, selectors) == [] <==> acc == [] && !PageReports(p, selectors)
    decreases |selectors|
  {
    if selectors != [] {
      var next := CollectElems(acc, Matches(p, selectors[0]));
      CollectElemsEmpty(acc, Matches(p, selectors[0]));
      CollectSelectorsEmpty(next, p, selectors[1..]);
    }
  }

  lemma {:induction false} CollectSelectorsCovers(acc: string, p: Page, selectors: seq<string>)
    ensures forall k, i :: 0 <= k < |selectors| && Reached(Matches(p, selectors[k]), i) && Reports(Matches(p, selectors[k])[i])
              ==> Contains(CollectSelectors(acc, p, selectors), Trim(Matches(p, selectors[k])[i].text))
    decreases |selectors|
  {
    if selectors != [] {
      var es := Matches(p, selectors[0]);
      var next := CollectElems(acc, es);
      var r := CollectSelectors(acc, p, selectors);
      CollectElemsCovers(acc, es);
      CollectSelectorsCovers(next, p, selectors[1..]);
      CollectSelectorsExtends(next, p, selectors[1..]);
      forall k, i | 0 <= k < |selectors| && Reached(Matches(p, selectors[k]), i) && Reports(Matches(p, selectors[k])[i])
        ensures Contains(r, Trim(Matches(p, selectors[k])[i].text))
      {
        if k == 0 {
          PrefixContainment(next, r, Trim(es[i].text));
        } else {
          assert selectors[k] == selectors[1..][k - 1];
        }
      }
    }
  }

  /** The aggregate is empty exactly when no element the loops reach shows
      non-blank text; otherwise it contains the text of every such element and
      has no separator at either end. */
  lemma AllErrorMessagesShape(p: Page)
    ensures AllErrorMessages(p) == [] <==> !PageReports(p, ErrorSelectors)
    ensures CleanEnds(AllErrorMessages(p))
    ensures forall k, i :: 0 <= k < |ErrorSelectors| && Reached(Matches(p, ErrorSelectors[k]), i) && Reports(Matches(p, ErrorSelectors[k])[i])
              ==> Contains(AllErrorMessages(p), Trim(Matches(p, ErrorSelectors[k])[i].text))
  {
    CollectSelectorsEmpty([], p, ErrorSelectors);
    CollectSelectorsCleanEnds([], p, ErrorSelectors);
    CollectSelectorsCovers([], p, ErrorSelectors);
  }

  /** `getAllErrorMessages`: the selectors in order, each one's matches in
      order, appending to a buffer; a failed lookup skips its selector. */
  method GetAllErrorMessages(p: Page) returns (allErrors: string)
    ensures allErrors == AllErrorMessages(p)
  {
    var errorSelectors := ErrorSelectors;
    var acc: string := [];
    var k := 0;
    while k < |errorSelectors|
      invariant 0 <= k <= |errorSelectors|
      invariant CollectSelectors(acc, p, errorSelectors[k..]) == AllErrorMessages(p)
    {
      assert errorSelectors[k..][0] == errorSelectors[k] && errorSelectors[k..][1..] == errorSelectors[k + 1..];
      var lookup := FindElements(p, errorSelectors[k]);
      if lookup.Ok? {
        acc := AppendDisplayedTexts(acc, lookup.answer);
      }
      k := k + 1;
    }
    allErrors := acc;
  }

  /** The inner loop of `getAllErrorMessages` over one selector's matches: a
      handle that throws ends it, keeping what was appended so far. */
  method AppendDisplayedTexts(start: string, elements: seq<Elem>) returns (acc: string)
    ensures acc == CollectElems(start, elements)
  {
    acc := start;
    var i := 0;
    while i < |elements|
      invariant 0 <= i <= |elements|
      invariant CollectElems(acc, elements[i..]) == CollectElems(start, elements)
    {
      assert elements[i..][0] == elements[i] && elements[i..][1..] == elements[i + 1..];
      var shown := IsDisplayed(elements[i]);
      if shown.Threw? {
        return;
      }
      ghost var before := acc;
      if shown.answer {
        var text := Trim(elements[i].text);
        if text != [] && !Contains(acc, text) {
          if |acc| > 0 {
            acc := acc + " | ";
          }
          acc := acc + text;
        }
        AppendBranches(before, text, acc);
      }
      i := i + 1;
    }
  }

  /** The buffer operations of the inner loop compute `AppendMessage`. */
  lemma AppendBranches(before: string, text: string, after: string)
    requires after == if text != [] && !Contains(before, text)
                      then (if |before| > 0 then before + " | " else before) + text
                      else before
    ensures after == AppendMessage(before, text)
  {
  }

  // ---------------------------------------------------------------------------
  // Waiting for an error message

  /** The loop bound as written, `timeoutSeconds * 2` in 32-bit arithmetic,
      and the number of probes it allows. */
  function ProbesAsWritten(timeoutSeconds: Int32): (n: nat)
    ensures 0 <= timeoutSeconds < 0x4000_0000 ==> n == 2 * timeoutSeconds
  {
    var bound := Wrap32(timeoutSeconds * 2);
    if bound <= 0 then 0 else bound
  }

  /** The doubled bound overflows: a timeout of 2^30 seconds allows no probe,
      and a timeout of -(2^31 - 1) seconds allows two. */
  lemma ProbeBoundOverflows()
    ensures ProbesAsWritten(0x4000_0000) == 0 && ProbeBudget(0x4000_0000) == 0x8000_0000
    ensures ProbesAsWritten(-0x7FFF_FFFF) == 2 && ProbeBudget(-0x7FFF_FFFF) == 0
  {
  }

  /** Two probes per second of timeout, none for a timeout that is not
      positive. */
  function ProbeBudget(timeoutSeconds: Int32): (n: nat)
    ensures n == 0 <==> timeoutSeconds <= 0
    ensures n % 2 == 0 && (timeoutSeconds > 0 ==> n / 2 == timeoutSeconds)
  {
    if timeoutSeconds <= 0 then 0 else 2 * timeoutSeconds
  }

  /** Outside the overflow range the two bounds agree. */
  lemma ProbeBudgetMatchesBelowOverflow(timeoutSeconds: Int32)
    requires -0x4000_0000 <= timeoutSeconds < 0x4000_0000
    ensures ProbesAsWritten(timeoutSeconds) == ProbeBudget(timeoutSeconds)
  {
  }

  /** `!getAllErrorMessages(driver).isEmpty()`: some error selector's loop
      reaches a displayed element with non-blank text. */
  method AnyErrorMessage(p: Page) returns (shown: bool)
    ensures shown <==> PageReports(p, ErrorSelectors)
  {
    var errorMessage := GetAllErrorMessages(p);
    AllErrorMessagesShape(p);
    shown := !(errorMessage == []);
  }

  /** Some index below `n` is a hit. */
  ghost predicate HitBefore(hit: nat -> bool, n: nat)
  {
    n > 0 && (HitBefore(hit, n - 1) || hit(n - 1))
  }

  /** `HitBefore` is "some index below `n` is a hit". */
  lemma HitBeforeMeans(hit: nat -> bool, n: nat)
    ensures HitBefore(hit, n) <==> exists i :: 0 <= i < n && hit(i)
  {
    if HitBefore(hit, n) {
      var i := HitBelow(hit, n);
    }
    if exists i :: 0 <= i < n && hit(i) {
      var i :| 0 <= i < n && hit(i);
      HitOnward(hit, i + 1, n);
    }
  }

  /** A hit below `n`, when there is one. */
  lemma {:induction false} HitBelow(hit: nat -> bool, n: nat) returns (i: nat)
    requires HitBefore(hit, n)
    ensures i < n && hit(i)
  {
    if hit(n - 1) {
      i := n - 1;
    } else {
      i := HitBelow(hit, n - 1);
    }
  }

  /** A hit at `n - 1` or below stays below every larger bound. */
  lemma {:induction false} HitOnward(hit: nat -> bool, n: nat, m: nat)
    requires 0 < n <= m && (HitBefore(hit, n) || hit(n - 1))
    ensures HitBefore(hit, m)
    decreases m - n
  {
    if n < m {
      HitOnward(hit, n + 1, m);
    }
  }

  /** Probe `i` looks at the page `at(i)` and finds an error message there. */
  ghost function ProbeFinds(at: nat -> Page): nat -> bool
  {
    (i: nat) => PageReports(at(i), ErrorSelectors)
  }

  /** `waitForErrorMessage`: probe `at(0)`, `at(1)`, ... (the page at each
      500 ms tick) until an error message shows, for at most
      `ProbeBudget(timeoutSeconds)` probes. `probes` counts the probes made;
      a hit is the first one. */
  method WaitForErrorMessage(at: nat -> Page, timeoutSeconds: Int32) returns (found: bool, probes: nat)
    ensures probes <= ProbeBudget(timeoutSeconds)
    ensures found <==> HitBefore(ProbeFinds(at), ProbeBudget(timeoutSeconds))
    ensures found ==> 0 < probes && PageReports(at(probes - 1), ErrorSelectors) && !HitBefore(ProbeFinds(at), probes - 1)
    ensures !found ==> probes == ProbeBudget(timeoutSeconds)
  {
    var limit := ProbeBudget(timeoutSeconds);
    for i := 0 to limit
      invariant !HitBefore(ProbeFinds(at), i)
    {
      var shown := AnyErrorMessage(at(i));
      assert ProbeFinds(at)(i) == shown;
      if shown {
        found, probes := true, i + 1;
        HitOnward(ProbeFinds(at), probes, limit);
        return;
      }
    }
    return false, limit;
  }
}
