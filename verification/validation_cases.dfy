/**
 * The cases of validation_test.go, stated as lemmas about the model. The
 * UUID parser is a parameter, so the cases that depend on what it accepts
 * are stated for every parser that answers as the test expects.
 */
module ValidationCases {
  import opened Wrappers
  import opened Validation

  /** The canonical lowercase account name is passed to the parser and its value returned. */
  lemma UsernameLowercaseAccepted(parse: UuidParser, v: Uuid)
    requires parse("5ec1d7f2-496d-11e9-8646-d663bd873d93") == Success(v)
    ensures GetValidUsername("5ec1d7f2-496d-11e9-8646-d663bd873d93", parse) == (v, None)
  {
    var u := "5ec1d7f2-496d-11e9-8646-d663bd873d93";
    assert forall i :: 0 <= i < |u| ==> !IsAsciiUpper(u[i]);
  }

  /** One uppercase letter is refused whatever the parser would say. */
  lemma UsernameUppercaseRefused(parse: UuidParser)
    ensures GetValidUsername("5Ec1d7f2-496d-11e9-8646-d663bd873d93", parse) == (NilUuid, Some(NeedLowercase))
  {
    var u := "5Ec1d7f2-496d-11e9-8646-d663bd873d93";
    assert IsAsciiUpper(u[1]);
  }

  /** Lowercase strings the parser refuses come back as the nil UUID with the parser's error. */
  lemma UsernameParserRefusals(parse: UuidParser)
    requires parse("a-97455b-52cc-4569-90c8-7a4b97c6eba8").Failure?
    requires parse("").Failure?
    requires parse("&!#!25123!%!'%").Failure?
    ensures var u := "a-97455b-52cc-4569-90c8-7a4b97c6eba8";
      GetValidUsername(u, parse) == (NilUuid, Some(ParseError(parse(u).error)))
    ensures GetValidUsername("", parse) == (NilUuid, Some(ParseError(parse("").error)))
    ensures var u := "&!#!25123!%!'%";
      GetValidUsername(u, parse) == (NilUuid, Some(ParseError(parse(u).error)))
  {
    var u1 := "a-97455b-52cc-4569-90c8-7a4b97c6eba8";
    assert forall i :: 0 <= i < |u1| ==> !IsAsciiUpper(u1[i]);
    var u3 := "&!#!25123!%!'%";
    assert forall i :: 0 <= i < |u3| ==> !IsAsciiUpper(u3[i]);
  }

  /** The key table, rows 1 and 5: the empty key and a 41-rune key. */
  lemma KeyWrongLengthRefused()
    ensures !ValidKey("")
    ensures !ValidKey("aaaaaaaa-aaa-aaaaaa-aaaaaaaa-aaa_aacaaaaa")
  {
    assert |"aaaaaaaa-aaa-aaaaaa-aaaaaaaa-aaa_aacaaaaa"| == 41;
  }

  /** The key table, row 2: 40 letters. */
  lemma KeyLettersAccepted()
    ensures ValidKey("aaaaaaaaaaaaaaaaaaaaaaaaaaaaaaaaaaaaaaaa")
  {
    var k := "aaaaaaaaaaaaaaaaaaaaaaaaaaaaaaaaaaaaaaaa";
    assert |k| == 40 && forall i :: 0 <= i < |k| ==> IsKeyChar(k[i]);
  }

  /** The key table, row 3: '-' and '_' are part of the key alphabet. */
  lemma KeyHyphenUnderscoreAccepted()
    ensures ValidKey("aaaaaaaa-aaa-aaaaaa-aaaaaaaa-aaa_aacaaaa")
  {
    var k := "aaaaaaaa-aaa-aaaaaa-aaaaaaaa-aaa_aacaaaa";
    assert |k| == 40 && forall i :: 0 <= i < |k| ==> IsKeyChar(k[i]);
  }

  /** The key table, row 4: 40 runes, one of them '#'. */
  lemma KeyHashRefused()
    ensures !ValidKey("aaaaaaaa-aaa-aaaaaa#aaaaaaaa-aaa_aacaaaa")
  {
    var k := "aaaaaaaa-aaa-aaaaaa#aaaaaaaa-aaa_aacaaaa";
    assert !IsKeyChar(k[19]);
  }

  /** A UUID is a valid subdomain: one label of letters, digits and inner hyphens. */
  lemma SubdomainUuidAccepted()
    ensures ValidSubdomain("5ec1d7f2-496d-11e9-8646-d663bd873d93")
  {
    var s := "5ec1d7f2-496d-11e9-8646-d663bd873d93";
    assert LabelChars(s);
    SingleLabelSubdomain(s);
  }

  /** A string that is not a UUID but has the same alphabet is a valid subdomain too. */
  lemma SubdomainUuidLikeAccepted()
    ensures ValidSubdomain("a-97455b-52cc-4569-90c8-7a4b97c6eba8")
  {
    var s := "a-97455b-52cc-4569-90c8-7a4b97c6eba8";
    assert LabelChars(s);
    SingleLabelSubdomain(s);
  }

  /** A single lowercase word is a valid subdomain. */
  lemma SubdomainWordAccepted()
    ensures ValidSubdomain("subdomain")
  {
    assert Scan(LabelStart, "subdomain") == AfterAlnum;
  }

  /** Two labels, the first with inner hyphens, make a valid subdomain. */
  lemma SubdomainTwoLabelsAccepted()
    ensures ValidSubdomain("even-full-tld" + "." + "style")
  {
    assert LabelChars("even-full-tld") && LabelChars("style");
    SingleLabelSubdomain("even-full-tld");
    SingleLabelSubdomain("style");
    DotJoinedSubdomain("even-full-tld", "style");
  }

  /** Five labels, one of them a lone digit, make a valid subdomain. */
  lemma SubdomainFiveLabelsAccepted()
    ensures ValidSubdomain("and.with.5" + "." + "parts.too")
  {
    assert Scan(LabelStart, "and.with.5") == AfterAlnum && Scan(LabelStart, "parts.too") == AfterAlnum;
    DotJoinedSubdomain("and.with.5", "parts.too");
  }

  /** An uppercase word is not a valid subdomain. */
  lemma SubdomainUppercaseWordRefused()
    ensures !ValidSubdomain("SUBDOMAIN")
  {
    SubdomainForeignChar("SUBDOMAIN", 0);
  }

  /** One uppercase letter inside a label makes a subdomain invalid. */
  lemma SubdomainInnerUppercaseRefused()
    ensures !ValidSubdomain("even-Full-tld.style")
  {
    SubdomainForeignChar("even-Full-tld.style", 5);
  }

  /** An uppercase first letter makes a subdomain invalid. */
  lemma SubdomainUppercaseFirstRefused()
    ensures !ValidSubdomain("And.with.5.parts.too")
  {
    SubdomainForeignChar("And.with.5.parts.too", 0);
  }

  /** Punctuation makes a subdomain invalid. */
  lemma SubdomainPunctuationRefused()
    ensures !ValidSubdomain("&!#!25123!%!'%")
  {
    SubdomainForeignChar("&!#!25123!%!'%", 0);
  }

  /** The empty string is refused. */
  lemma SubdomainEmptyRefused()
    ensures !ValidSubdomain("")
  {
  }

  /** A trailing dot is refused: the last label is empty. */
  lemma SubdomainTrailingDotRefused()
    ensures !ValidSubdomain("domain.")
  {
    assert Scan(LabelStart, "domain.") == LabelStart;
  }

  /** Two dots in a row are refused: the label between them is empty. */
  lemma SubdomainDoubleDotRefused()
    ensures !ValidSubdomain("double..period")
  {
    var a, b := "double.", ".period";
    assert a + b == "double..period";
    ScanConcat(LabelStart, a, b);
    assert Scan(LabelStart, a) == LabelStart;
    ScanRejectedStays(b[1..]);
    assert Scan(LabelStart, b) == Rejected;
  }

  /** 43 letters, the length of a base64url SHA-256 digest, pass. */
  lemma TxtDigestAccepted()
    ensures ValidTxt(seq(43, _ => 'a'))
  {
    assert (43 + 1) % 44 == 0;
  }

  /** One letter more or one less fails. */
  lemma TxtWrongLengthRefused()
    ensures !ValidTxt(seq(44, _ => 'a'))
    ensures !ValidTxt(seq(42, _ => 'a'))
  {
    assert (44 + 1) % 44 == 1;
    assert (42 + 1) % 44 == 43;
  }

  /** A '#' among 43 characters fails. */
  lemma TxtHashRefused()
    ensures !ValidTxt(seq(28, _ => 'a') + "#" + seq(14, _ => 'a'))
  {
    var s := seq(28, _ => 'a') + "#" + seq(14, _ => 'a');
    assert s[28] == '#';
  }

  /** The empty string fails. */
  lemma TxtEmptyRefused()
    ensures !ValidTxt("")
  {
  }

  /** Separator placement is not checked: 87 letters without a dot, or 43 dots, pass. */
  lemma TxtSeparatorsNotChecked()
    ensures ValidTxt(seq(87, _ => 'a'))
    ensures ValidTxt(seq(43, _ => '.'))
  {
    assert (87 + 1) % 44 == 0;
  }
}
