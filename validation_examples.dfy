/**
 * Concrete inputs for the format validators, each following from the exact
 * characterisations in Validation: the length bounds, the leading digit of a
 * pincode, which punctuation each character class admits, and two e-mail
 * shapes the pattern refuses.
 */
module ValidationExamples {
  import opened Wrappers
  import opened Js
  import opened Validation

  /** Lengths 6 and 15 pass the password check. */
  lemma PasswordAcceptsBounds()
    ensures IsValidPassword("abc123") && IsValidPassword(seq(15, _ => 'a'))
  {
    PasswordExactly("abc123");
    PasswordExactly(seq(15, _ => 'a'));
  }

  /** Lengths 5 and 16 fail the password check. */
  lemma PasswordRejectsLengths()
    ensures !IsValidPassword("abc12") && !IsValidPassword(seq(16, _ => 'a'))
  {
    PasswordExactly("abc12");
    PasswordExactly(seq(16, _ => 'a'));
  }

  /** A symbol or a space fails the password check at an allowed length. */
  lemma PasswordRejectsSymbols()
    ensures !IsValidPassword("Passw0rd!") && !IsValidPassword("pass word")
  {
    PasswordExactly("Passw0rd!");
    PasswordExactly("pass word");
    assert !IsAlnum("Passw0rd!"[8]);
    assert !IsAlnum("pass word"[4]);
  }

  /** Ten digits pass the mobile check. */
  lemma MobileAcceptsTenDigits()
    ensures IsValidMobile("9876543210")
  {
    var s := "9876543210";
    MobileExactly(s);
    forall i | 0 <= i < |s| ensures IsDigit(s[i]) { }
  }

  /** Nine digits, eleven digits and a leading `+` fail the mobile check. */
  lemma MobileRejectsOthers()
    ensures !IsValidMobile("987654321") && !IsValidMobile("98765432101") && !IsValidMobile("+987654321")
  {
    MobileExactly("987654321");
    MobileExactly("98765432101");
    MobileExactly("+987654321");
    assert !IsDigit("+987654321"[0]);
  }

  /** The pincode check: a leading zero fails, as do five and seven digits. */
  lemma PincodeBoundaries()
    ensures IsValidPincode("560001") && IsValidPincode("999999")
    ensures !IsValidPincode("012345") && !IsValidPincode("56000") && !IsValidPincode("5600011")
  {
    PincodeExactly("560001");
    PincodeExactly("999999");
    PincodeExactly("012345");
    PincodeExactly("56000");
    PincodeExactly("5600011");
  }

  /** Both charset checks reject the empty string but accept a string of spaces, which only `isValid` rejects. */
  lemma CharsetChecksAcceptBlank()
    ensures !IsValidString("") && !IsValidPlace("")
    ensures IsValidString("  ") && IsValidPlace("  ") && !IsValid(Str("  "))
  {
    StringExactly("  ");
    PlaceExactly("  ");
    assert TrimStart("  ") == TrimStart(" ") == TrimStart("");
  }

  /** The name check admits `'`, `-`, `,`, `.` and spaces. */
  lemma NameAcceptsPunctuation()
    ensures IsValidString("O'Li-Jo, J.")
  {
    var s := "O'Li-Jo, J.";
    StringExactly(s);
    forall i | 0 <= i < |s| ensures IsNameChar(s[i]) { }
  }

  /** The name check does not admit `_`. */
  lemma NameRejectsUnderscore()
    ensures !IsValidString("Ann_Lee")
  {
    StringExactly("Ann_Lee");
    assert !IsNameChar("Ann_Lee"[3]);
  }

  /** The place check admits `_` and `-`. */
  lemma PlaceAcceptsUnderscore()
    ensures IsValidPlace("MG_Road-2")
  {
    var s := "MG_Road-2";
    PlaceExactly(s);
    forall i | 0 <= i < |s| ensures IsPlaceChar(s[i]) { }
  }

  /** The place check does not admit `'`, which the name check does. */
  lemma PlaceRejectsApostrophe()
    ensures !IsValidPlace("O'Neil") && IsValidString("O'Neil")
  {
    PlaceExactly("O'Neil");
    StringExactly("O'Neil");
    assert !IsPlaceChar("O'Neil"[1]);
  }

  /** The place check does not admit `.`, which the name check does. */
  lemma PlaceRejectsDot()
    ensures !IsValidPlace("St. Mark")
  {
    PlaceExactly("St. Mark");
    assert !IsPlaceChar("St. Mark"[2]);
  }

  /** A one-letter top label is rejected by the e-mail check. */
  lemma EmailRejectsShortTld()
    ensures !IsValidEmail("john@mail.c")
  {
    assert IndexOf("john@mail.c", '@') == Some(4);
    assert "john@mail.c"[5..] == "mail.c";
    assert LastIndexOf("mail.c", '.') == Some(4);
  }

  /** An empty local part is rejected by the e-mail check. */
  lemma EmailRejectsEmptyLocal()
    ensures !IsValidEmail("@mail.com")
  {
    assert IndexOf("@mail.com", '@') == Some(0);
  }
}
