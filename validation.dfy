/**
 * The field validators of the request handlers. Each one is a single regular
 * expression test or boolean expression; here each is a predicate over the
 * characters of the string, following the expression's structure, with
 * lemmas that state the exact set of strings it accepts.
 */
module Validation {
  import opened Wrappers
  import opened Js

  // ---------------------------------------------------------------------------
  // Character classes (no `u`/`i` flags unless noted: `\d` is [0-9], `\w` is [A-Za-z0-9_])

  predicate IsDigit(c: char) { '0' <= c <= '9' }

  predicate IsAsciiLetter(c: char) { 'a' <= c <= 'z' || 'A' <= c <= 'Z' }

  predicate IsAlnum(c: char) { IsAsciiLetter(c) || IsDigit(c) }

  /** `\w` */
  predicate IsWordChar(c: char) { IsAlnum(c) || c == '_' }

  /** `[a-zA-Z0-9\s\-\.,']` */
  predicate IsNameChar(c: char) { IsAlnum(c) || IsSpace(c) || c == '-' || c == '.' || c == ',' || c == '\'' }

  /** `[\w\s-]` */
  predicate IsPlaceChar(c: char) { IsWordChar(c) || IsSpace(c) || c == '-' }

  /** `[\w\.-]`, the local part of an e-mail address */
  predicate IsLocalChar(c: char) { IsWordChar(c) || c == '.' || c == '-' }

  /** `[a-zA-Z0-9_-]`, a domain label */
  predicate IsLabelChar(c: char) { IsWordChar(c) || c == '-' }

  /** Every character of `s` is in the class `p`. */
  predicate Each(s: string, p: char -> bool) {
    forall i :: 0 <= i < |s| ==> p(s[i])
  }

  // ---------------------------------------------------------------------------
  // isValid and isValidRequestBody

  /** `isValid`: false for `undefined`, `null` and strings that trim to nothing; true otherwise. */
  predicate IsValid(v: JsValue) {
    match v
    case Undefined => false
    case Null => false
    case Str(s) => Trim(s) != []
    case _ => true
  }

  /** `isValid` applied to a request field. */
  predicate IsValidField(o: Option<string>) {
    IsValid(OfField(o))
  }

  /** The values `isValid` rejects are exactly `undefined`, `null` and blank strings; numbers, zero included, pass. */
  lemma IsValidExactly(v: JsValue)
    ensures !IsValid(v) <==> v.Undefined? || v.Null? || (v.Str? && Blank(v.s))
  {
    if v.Str? {
      TrimEmptyIffBlank(v.s);
    }
  }

  /** `isValidRequestBody`: the value has at least one own key (`Object.keys` throws on `undefined`/`null`). */
  predicate IsValidRequestBody(v: JsValue)
    requires !v.Undefined? && !v.Null?
  {
    KeyCount(v) > 0
  }

  /** A string that passes `isValid` also passes `isValidRequestBody`, so a second check of a string field by it never fires. */
  lemma ValidStringHasKeys(s: string)
    requires IsValid(Str(s))
    ensures IsValidRequestBody(Str(s)) && s != []
  {
    TrimEmptyIffBlank(s);
  }

  /** A number passes `isValid` but has no own keys, so `isValidRequestBody` rejects it: on a numeric field the two checks disagree. */
  lemma NumberHasNoKeys(n: int)
    ensures IsValid(Num(n)) && !IsValidRequestBody(Num(n))
  {
  }

  // ---------------------------------------------------------------------------
  // Anchored repetition of one class: `^[C]+$`, `^[C]{n}$`, `^[C]{lo,hi}$`

  /** One repetition fewer still owed: the lower bound counts down to zero. */
  function Owed(lo: nat): nat { if lo == 0 then 0 else lo - 1 }

  /** One repetition fewer still allowed: `None` is the unbounded `+` or `{lo,}`. */
  function Allowed(hi: Option<nat>): Option<nat> {
    match hi
    case None => None
    case Some(n) => Some(if n == 0 then 0 else n - 1)
  }

  /**
   * `^[C]{lo,hi}$` run the way a regular-expression matcher runs it: while the
   * upper bound allows another repetition, take one character of the class; at
   * the end of the input, succeed once the lower bound has been met. With a
   * single class there is nothing to backtrack into.
   */
  predicate MatchRepeat(s: string, c: char -> bool, lo: nat, hi: Option<nat>)
    decreases |s|
  {
    if |s| == 0 then lo == 0
    else hi != Some(0) && c(s[0]) && MatchRepeat(s[1..], c, Owed(lo), Allowed(hi))
  }

  /** The matcher accepts exactly the strings of the class whose length lies within the bounds. */
  lemma {:induction false} MatchRepeatExactly(s: string, c: char -> bool, lo: nat, hi: Option<nat>)
    ensures MatchRepeat(s, c, lo, hi) <==> lo <= |s| && (hi.None? || |s| <= hi.value) && Each(s, c)
    decreases |s|
  {
    if |s| > 0 {
      MatchRepeatExactly(s[1..], c, Owed(lo), Allowed(hi));
      assert Each(s, c) <==> c(s[0]) && Each(s[1..], c) by {
        if c(s[0]) && Each(s[1..], c) {
          forall i | 0 <= i < |s| ensures c(s[i]) {
            if i > 0 { assert s[i] == s[1..][i - 1]; }
          }
        }
      }
    }
  }

  // ---------------------------------------------------------------------------
  // Single-class validators

  /** `isValidString`: `^[a-zA-Z0-9\s\-\.,']+$` (with the `u` flag). */
  predicate IsValidString(s: string) {
    MatchRepeat(s, IsNameChar, 1, None)
  }

  /** `isValidMobile`: `^\d{10}$`. */
  predicate IsValidMobile(s: string) {
    MatchRepeat(s, IsDigit, 10, Some(10))
  }

  /** `isValidPassword`: `^[a-zA-Z0-9]{6,15}$`. */
  predicate IsValidPassword(s: string) {
    MatchRepeat(s, IsAlnum, 6, Some(15))
  }

  /** `[1-9]` */
  predicate IsNonZeroDigit(c: char) { '1' <= c <= '9' }

  /** `isValidPincode`: `^[1-9][0-9]{5}$`, one leading character and then an anchored repetition. */
  predicate IsValidPincode(s: string) {
    |s| > 0 && IsNonZeroDigit(s[0]) && MatchRepeat(s[1..], IsDigit, 5, Some(5))
  }

  /** `isValidPlace`: `^[\w\s-]+$`. */
  predicate IsValidPlace(s: string) {
    MatchRepeat(s, IsPlaceChar, 1, None)
  }

  /** `isValidString` accepts exactly the non-empty strings of letters, digits, whitespace and `-.,'`. */
  lemma StringExactly(s: string)
    ensures IsValidString(s) <==> |s| >= 1 && Each(s, IsNameChar)
  {
    MatchRepeatExactly(s, IsNameChar, 1, None);
  }

  /** `isValidMobile` accepts exactly the strings of ten decimal digits. */
  lemma MobileExactly(s: string)
    ensures IsValidMobile(s) <==> |s| == 10 && Each(s, IsDigit)
  {
    MatchRepeatExactly(s, IsDigit, 10, Some(10));
  }

  /** `isValidPassword` accepts exactly the strings of 6 to 15 ASCII letters and digits. */
  lemma PasswordExactly(s: string)
    ensures IsValidPassword(s) <==> 6 <= |s| <= 15 && Each(s, IsAlnum)
  {
    MatchRepeatExactly(s, IsAlnum, 6, Some(15));
  }

  /** `isValidPincode` accepts exactly the six-digit strings that do not start with 0. */
  lemma PincodeExactly(s: string)
    ensures IsValidPincode(s) <==> |s| == 6 && s[0] != '0' && Each(s, IsDigit)
  {
    if |s| > 0 {
      MatchRepeatExactly(s[1..], IsDigit, 5, Some(5));
      if |s| == 6 && s[0] != '0' && Each(s, IsDigit) {
        assert IsDigit(s[0]);
        forall i | 0 <= i < 5 ensures IsDigit(s[1..][i]) {
          assert s[1..][i] == s[i + 1];
        }
      }
      if IsValidPincode(s) {
        forall i | 0 <= i < 6 ensures IsDigit(s[i]) {
          if i > 0 { assert s[i] == s[1..][i - 1]; }
        }
      }
    }
  }

  /** `isValidPlace` accepts exactly the non-empty strings of word characters, whitespace and `-`. */
  lemma PlaceExactly(s: string)
    ensures IsValidPlace(s) <==> |s| >= 1 && Each(s, IsPlaceChar)
  {
    MatchRepeatExactly(s, IsPlaceChar, 1, None);
  }

  // ---------------------------------------------------------------------------
  // isValidISBN: `^(?=(?:\D*\d){5}$)\d+$`

  /** The position of the first decimal digit of `s`, if any. */
  function FirstDigit(s: string): (r: Option<nat>)
    ensures r.Some? ==> r.value < |s| && IsDigit(s[r.value]) && forall k :: 0 <= k < r.value ==> !IsDigit(s[k])
    ensures r.None? ==> forall k :: 0 <= k < |s| ==> !IsDigit(s[k])
  {
    if |s| == 0 then None
    else if IsDigit(s[0]) then Some(0)
    else match FirstDigit(s[1..])
      case None => None
      case Some(i) => Some(i + 1)
  }

  /**
   * Whether all of `s` matches `(?:\D*\d){k}`: `\D*` cannot take a digit, so
   * each repetition ends at the first digit left.
   */
  predicate DigitGroups(s: string, k: nat)
    decreases k
  {
    if k == 0 then s == []
    else match FirstDigit(s)
      case None => false
      case Some(i) => DigitGroups(s[i + 1..], k - 1)
  }

  /** `isValidISBN`: the look-ahead `(?:\D*\d){5}$` and then `\d+$`, both from the start. */
  predicate IsValidISBN(s: string) {
    DigitGroups(s, 5) && |s| >= 1 && Each(s, IsDigit)
  }

  /** On a string of digits, `(?:\D*\d){k}` matches the whole string exactly when it has length `k`. */
  lemma {:induction false} DigitGroupsOfDigits(s: string, k: nat)
    requires Each(s, IsDigit)
    ensures DigitGroups(s, k) <==> |s| == k
    decreases k
  {
    if k > 0 && |s| > 0 {
      assert FirstDigit(s) == Some(0);
      DigitGroupsOfDigits(s[1..], k - 1);
    }
  }

  /** The ISBN check accepts exactly the strings of five decimal digits. */
  lemma IsbnIsFiveDigits(s: string)
    ensures IsValidISBN(s) <==> |s| == 5 && Each(s, IsDigit)
  {
    if Each(s, IsDigit) {
      DigitGroupsOfDigits(s, 5);
    }
  }

  /** So a 13-digit ISBN, four or six digits, and any non-digit are all rejected. */
  lemma IsbnExamples()
    ensures IsValidISBN("12345")
    ensures !IsValidISBN("1234") && !IsValidISBN("123456") && !IsValidISBN("9780306406157")
    ensures !IsValidISBN("12a45") && !IsValidISBN("")
  {
    var five := "12345";
    assert Each(five, IsDigit) by {
      assert forall i | 0 <= i < |five| :: five[i] in "0123456789";
    }
    IsbnIsFiveDigits(five);
    IsbnIsFiveDigits("1234");
    IsbnIsFiveDigits("123456");
    IsbnIsFiveDigits("9780306406157");
    IsbnIsFiveDigits("12a45");
    assert !IsDigit("12a45"[2]);
  }

  // ---------------------------------------------------------------------------
  // isValidEmail: `^[\w\.-]+@[a-zA-Z0-9_-]+(\.[a-zA-Z0-9_-]+)*\.[a-zA-Z]{2,}$`

  /** The first position of `c` in `s`. */
  function IndexOf(s: string, c: char): (r: Option<nat>)
    ensures r.Some? ==> r.value < |s| && s[r.value] == c && forall k :: 0 <= k < r.value ==> s[k] != c
    ensures r.None? ==> c !in s
  {
    if |s| == 0 then None
    else if s[0] == c then Some(0)
    else match IndexOf(s[1..], c)
      case None => None
      case Some(i) => Some(i + 1)
  }

  /** The last position of `c` in `s`. */
  function LastIndexOf(s: string, c: char): (r: Option<nat>)
    ensures r.Some? ==> r.value < |s| && s[r.value] == c && forall k :: r.value < k < |s| ==> s[k] != c
    ensures r.None? ==> c !in s
  {
    if |s| == 0 then None
    else if s[|s| - 1] == c then Some(|s| - 1)
    else LastIndexOf(s[..|s| - 1], c)
  }

  /** `[\w\.-]+` */
  predicate IsLocalPart(s: string) { |s| >= 1 && Each(s, IsLocalChar) }

  /** `[a-zA-Z0-9_-]+` */
  predicate IsLabel(s: string) { |s| >= 1 && Each(s, IsLabelChar) }

  /** `[a-zA-Z]{2,}` */
  predicate IsTld(s: string) { |s| >= 2 && Each(s, IsAsciiLetter) }

  /** `[a-zA-Z0-9_-]+(\.[a-zA-Z0-9_-]+)*`: a label, then `.label` repeated; labels hold no dot. */
  predicate IsDottedLabels(s: string)
    decreases |s|
  {
    match IndexOf(s, '.')
    case None => IsLabel(s)
    case Some(k) => IsLabel(s[..k]) && IsDottedLabels(s[k + 1..])
  }

  /** The part after `@`: dotted labels, a dot, and a letters-only top label, which holds no dot and so follows the last one. */
  predicate IsDomain(s: string) {
    match LastIndexOf(s, '.')
    case None => false
    case Some(j) => IsDottedLabels(s[..j]) && IsTld(s[j + 1..])
  }

  /** `isValidEmail`: the local part holds no `@`, so the first `@` separates it from the domain. */
  predicate IsValidEmail(s: string) {
    match IndexOf(s, '@')
    case None => false
    case Some(i) => IsLocalPart(s[..i]) && IsDomain(s[i + 1..])
  }

  /** Labels joined with dots. */
  function JoinDots(labels: seq<string>): string
    requires |labels| >= 1
  {
    if |labels| == 1 then labels[0] else labels[0] + "." + JoinDots(labels[1..])
  }

  /** Every label is a well-formed domain label. */
  predicate AllLabels(labels: seq<string>) {
    forall i :: 0 <= i < |labels| ==> IsLabel(labels[i])
  }

  /** The address built from a local part, at least one label and a top label. */
  function ComposeEmail(local: string, labels: seq<string>, tld: string): string
    requires |labels| >= 1
  {
    local + "@" + JoinDots(labels) + "." + tld
  }

  lemma IndexOfAfter(a: string, c: char, b: string)
    requires c !in a
    ensures IndexOf(a + [c] + b, c) == Some(|a|)
  {
    assert (a + [c] + b)[|a|] == c;
  }

  lemma LastIndexOfBefore(a: string, c: char, b: string)
    requires c !in b
    ensures LastIndexOf(a + [c] + b, c) == Some(|a|)
  {
    assert (a + [c] + b)[|a|] == c;
  }

  /** Joining well-formed labels gives a string the dotted-labels pattern accepts, holding no `@`. */
  lemma {:induction false} DottedJoin(labels: seq<string>)
    requires |labels| >= 1 && AllLabels(labels)
    ensures IsDottedLabels(JoinDots(labels))
    decreases |labels|
  {
    var l := labels[0];
    assert IsLabel(l);
    assert '.' !in l;
    if |labels| == 1 {
      assert IndexOf(l, '.') == None;
    } else {
      var rest := JoinDots(labels[1..]);
      DottedJoin(labels[1..]);
      IndexOfAfter(l, '.', rest);
      var s := JoinDots(labels);
      assert s == l + ['.'] + rest;
      assert s[..|l|] == l;
      assert s[|l| + 1..] == rest;
    }
  }

  /** Joined labels hold only label characters and dots. */
  lemma {:induction false} JoinDotsChars(labels: seq<string>)
    requires |labels| >= 1 && AllLabels(labels)
    ensures Each(JoinDots(labels), c => IsLabelChar(c) || c == '.')
    decreases |labels|
  {
    var l := labels[0];
    assert IsLabel(l);
    if |labels| > 1 {
      var rest := JoinDots(labels[1..]);
      JoinDotsChars(labels[1..]);
      var s := JoinDots(labels);
      assert s == l + ['.'] + rest;
      forall i | 0 <= i < |s| ensures IsLabelChar(s[i]) || s[i] == '.' {
        if i < |l| {
          assert s[i] == l[i];
        } else if i > |l| {
          assert s[i] == rest[i - |l| - 1];
        }
      }
    }
  }

  /** A string the dotted-labels pattern accepts splits into well-formed labels that join back to it. */
  lemma {:induction false} DottedSplit(s: string) returns (labels: seq<string>)
    requires IsDottedLabels(s)
    ensures |labels| >= 1 && AllLabels(labels) && JoinDots(labels) == s
    decreases |s|
  {
    match IndexOf(s, '.')
    case None =>
      labels := [s];
    case Some(k) =>
      var rest := DottedSplit(s[k + 1..]);
      labels := [s[..k]] + rest;
      assert labels[1..] == rest;
      assert s == s[..k] + "." + s[k + 1..];
  }

  /** Every address built from well-formed parts passes the e-mail check. */
  lemma EmailFromParts(local: string, labels: seq<string>, tld: string)
    requires IsLocalPart(local) && |labels| >= 1 && AllLabels(labels) && IsTld(tld)
    ensures IsValidEmail(ComposeEmail(local, labels, tld))
  {
    var host := JoinDots(labels);
    DottedJoin(labels);
    JoinDotsChars(labels);
    var domain := host + "." + tld;
    assert '.' !in tld;
    LastIndexOfBefore(host, '.', tld);
    assert domain == host + ['.'] + tld;
    assert domain[..|host|] == host;
    assert domain[|host| + 1..] == tld;
    assert '@' !in local;
    var s := ComposeEmail(local, labels, tld);
    assert s == local + ['@'] + domain;
    IndexOfAfter(local, '@', domain);
    assert s[..|local|] == local;
    assert s[|local| + 1..] == domain;
  }

  /** Every address that passes the e-mail check is built from well-formed parts. */
  lemma EmailToParts(s: string) returns (local: string, labels: seq<string>, tld: string)
    requires IsValidEmail(s)
    ensures IsLocalPart(local) && |labels| >= 1 && AllLabels(labels) && IsTld(tld)
    ensures s == ComposeEmail(local, labels, tld)
  {
    var i := IndexOf(s, '@').value;
    local := s[..i];
    var domain := s[i + 1..];
    assert IsLocalPart(local) && IsDomain(domain);
    var j := LastIndexOf(domain, '.').value;
    tld := domain[j + 1..];
    assert IsDottedLabels(domain[..j]) && IsTld(tld);
    labels := DottedSplit(domain[..j]);
    ComposeAgain(s, i, j, labels);
  }

  lemma ComposeAgain(s: string, i: nat, j: nat, labels: seq<string>)
    requires i < |s| && s[i] == '@' && j < |s[i + 1..]| && s[i + 1..][j] == '.'
    requires |labels| >= 1 && JoinDots(labels) == s[i + 1..][..j]
    ensures s == ComposeEmail(s[..i], labels, s[i + 1..][j + 1..])
  {
    var domain := s[i + 1..];
    var host, tld := domain[..j], domain[j + 1..];
    var c := ComposeEmail(s[..i], labels, tld);
    assert c == s[..i] + "@" + host + "." + tld;
    forall k | 0 <= k < |s| ensures c[k] == s[k] {
      if k < i {
      } else if k == i {
      } else if k < i + 1 + j {
        assert c[k] == host[k - i - 1];
      } else if k == i + 1 + j {
      } else {
        assert c[k] == tld[k - i - j - 2];
      }
    }
  }

  /** Each format check implies `isValid`: an accepted string never starts with white space. */
  lemma FormatImpliesPresent(s: string)
    requires IsValidMobile(s) || IsValidPassword(s) || IsValidPincode(s) || IsValidISBN(s) || IsValidEmail(s)
    ensures IsValid(Str(s))
  {
    MobileExactly(s);
    PasswordExactly(s);
    PincodeExactly(s);
    if IsValidEmail(s) {
      var local, labels, tld := EmailToParts(s);
      assert s[0] == local[0];
    }
    assert s != [] && !IsSpace(s[0]);
    TrimEmptyIffBlank(s);
  }
}
