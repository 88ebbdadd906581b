/**
 * The request-field validators of acme-dns (validation.go): the account
 * name (a lowercase UUID), the 40-rune API key, the subdomain name and the
 * TXT record value. Strings are sequences of runes; every count below is a
 * rune count, as `utf8.RuneCountInString` gives.
 */
module Validation {
  import opened Wrappers
  import opened Text

  newtype byte = x: int | 0 <= x < 256

  /** A 128-bit UUID, as the 16 bytes of `uuid.UUID`. */
  type Uuid = s: seq<byte> | |s| == 16 witness seq(16, _ => 0)

  /** `uuid.UUID{}`, the value returned beside every error. */
  const NilUuid: Uuid := seq(16, _ => 0)

  /**
   * `uuid.Parse` is a library collaborator; the model takes it as a parameter
   * and nothing is presumed about which strings it accepts. On failure it yields
   * the parser's own error text.
   */
  type UuidParser = string -> Result<Uuid, string>

  // ---------------------------------------------------------------------------
  // getValidUsername
  // ---------------------------------------------------------------------------

  predicate IsAsciiUpper(c: char) { 'A' <= c <= 'Z' }

  function LowerChar(c: char): char
  {
    if IsAsciiUpper(c) then (c as int - 'A' as int + 'a' as int) as char else c
  }

  /** `strings.ToLower`, restricted to ASCII letters. */
  function ToLower(s: string): (r: string)
    ensures |r| == |s|
    ensures forall i :: 0 <= i < |r| ==> !IsAsciiUpper(r[i])
    ensures r == s <==> forall i :: 0 <= i < |s| ==> !IsAsciiUpper(s[i])
  {
    var r := seq(|s|, i requires 0 <= i < |s| => LowerChar(s[i]));
    assert forall i :: 0 <= i < |s| && IsAsciiUpper(s[i]) ==> r[i] != s[i];
    r
  }

  /** The two errors `getValidUsername` reports. */
  datatype UsernameError =
    | NeedLowercase             // "need lowercase username"
    | ParseError(reason: string) // the error `uuid.Parse` returned, passed on as is

  /**
   * `getValidUsername(u)`: a string with an uppercase letter is refused
   * before parsing (the account store may be case sensitive), otherwise the
   * parser decides. Every error comes with the nil UUID.
   */
  function GetValidUsername(u: string, parse: UuidParser): (r: (Uuid, Option<UsernameError>))
    ensures (exists i :: 0 <= i < |u| && IsAsciiUpper(u[i])) ==> r == (NilUuid, Some(NeedLowercase))
    ensures (forall i :: 0 <= i < |u| ==> !IsAsciiUpper(u[i])) && parse(u).Failure? ==>
              r == (NilUuid, Some(ParseError(parse(u).error)))
    ensures r.1.None? <==> (forall i :: 0 <= i < |u| ==> !IsAsciiUpper(u[i])) && parse(u).Success?
    ensures r.1.None? ==> r.0 == parse(u).value
    ensures r.1.Some? ==> r.0 == NilUuid
  {
    if ToLower(u) != u then (NilUuid, Some(NeedLowercase))
    else
      match parse(u)
      case Failure(reason) => (NilUuid, Some(ParseError(reason)))
      case Success(id) => (id, None)
  }

  // ---------------------------------------------------------------------------
  // validKey
  // ---------------------------------------------------------------------------

  /** The characters `sanitizeString` keeps: `[A-Za-z0-9_-]`. */
  predicate IsKeyChar(c: char)
  {
    'A' <= c <= 'Z' || 'a' <= c <= 'z' || '0' <= c <= '9' || c == '-' || c == '_'
  }

  /** `sanitizeString`: drops every character outside `[A-Za-z0-9_-]`. */
  function SanitizeString(s: string): string
  {
    Keep(s, IsKeyChar)
  }

  /**
   * `validKey(k)`: both the key and its sanitized copy have 40 runes, which
   * means exactly: 40 runes, all from the key alphabet.
   */
  function ValidKey(k: string): (valid: bool)
    ensures valid <==> |k| == 40 && forall i :: 0 <= i < |k| ==> IsKeyChar(k[i])
  {
    |k| == 40 && |SanitizeString(k)| == 40
  }

  // ---------------------------------------------------------------------------
  // validSubdomain
  // ---------------------------------------------------------------------------

  predicate IsLowerAlnum(c: char) { 'a' <= c <= 'z' || '0' <= c <= '9' }

  predicate IsLabelChar(c: char) { IsLowerAlnum(c) || c == '-' }

  predicate LabelChars(l: string) { forall i :: 0 <= i < |l| ==> IsLabelChar(l[i]) }

  /** One DNS label: non-empty, `[a-z0-9-]` only, no leading or trailing hyphen. */
  predicate ValidLabel(l: string)
  {
    |l| > 0 && LabelChars(l) && l[0] != '-' && l[|l| - 1] != '-'
  }

  predicate AllValidLabels(labels: seq<string>)
  {
    forall i :: 0 <= i < |labels| ==> ValidLabel(labels[i])
  }

  /**
   * The states of a left-to-right scanner for the subdomain grammar: one or
   * more labels separated by single dots, each a lowercase letter or digit,
   * optionally followed by letters, digits and hyphens ending in a letter or digit.
   */
  datatype ScanState =
    | LabelStart  // at the start of a label: a letter or digit must follow
    | AfterAlnum  // inside a label, last rune a letter or digit
    | AfterHyphen // inside a label, last rune a hyphen
    | Rejected    // no continuation matches

  function Step(st: ScanState, c: char): ScanState
  {
    match st
    case Rejected => Rejected
    case LabelStart => if IsLowerAlnum(c) then AfterAlnum else Rejected
    case AfterAlnum =>
      if IsLowerAlnum(c) then AfterAlnum
      else if c == '-' then AfterHyphen
      else if c == '.' then LabelStart
      else Rejected
    case AfterHyphen =>
      if IsLowerAlnum(c) then AfterAlnum
      else if c == '-' then AfterHyphen
      else Rejected
  }

  function Scan(st: ScanState, s: string): ScanState
    decreases |s|
  {
    if s == [] then st else Scan(Step(st, s[0]), s[1..])
  }

  /** Scanning a concatenation scans the first part, then the second. */
  lemma {:induction false} ScanConcat(st: ScanState, a: string, b: string)
    ensures Scan(st, a + b) == Scan(Scan(st, a), b)
    decreases |a|
  {
    if a == [] {
      assert a + b == b;
    } else {
      assert (a + b)[0] == a[0] && (a + b)[1..] == a[1..] + b;
      ScanConcat(Step(st, a[0]), a[1..], b);
    }
  }

  /** Once the scanner rejects, no further input brings it back. */
  lemma {:induction false} ScanRejectedStays(s: string)
    ensures Scan(Rejected, s) == Rejected
    decreases |s|
  {
    if s != [] {
      ScanRejectedStays(s[1..]);
    }
  }

  /** What the rest `l` of the current label must look like, given the scanner state. */
  predicate LabelRestOk(st: ScanState, l: string)
  {
    match st
    case Rejected => false
    case LabelStart => ValidLabel(l)
    case AfterAlnum => LabelChars(l) && (l == [] || l[|l| - 1] != '-')
    case AfterHyphen => l != [] && LabelChars(l) && l[|l| - 1] != '-'
  }

  lemma LabelRestStep(st: ScanState, c: char, l: string)
    requires c != '.'
    ensures LabelRestOk(st, [c] + l) == LabelRestOk(Step(st, c), l)
  {
    var cl := [c] + l;
    assert cl[0] == c && cl[|cl| - 1] == (if l == [] then c else l[|l| - 1]);
    assert LabelChars(cl) <==> IsLabelChar(c) && LabelChars(l) by {
      assert forall i :: 0 <= i < |l| ==> cl[i + 1] == l[i];
    }
  }

  /** The scanner accepts from `st` exactly when the pieces between dots are what the grammar asks. */
  lemma {:induction false} ScanAccepts(st: ScanState, s: string)
    ensures var labels := Split(s, '.');
      Scan(st, s) == AfterAlnum <==> LabelRestOk(st, labels[0]) && AllValidLabels(labels[1..])
    decreases |s|
  {
    var labels := Split(s, '.');
    if s == [] {
      assert labels == [[]];
    } else {
      var rest := Split(s[1..], '.');
      ScanAccepts(Step(st, s[0]), s[1..]);
      if s[0] == '.' {
        assert labels == [[]] + rest;
        assert labels[1..] == rest;
        assert AllValidLabels(rest) <==> ValidLabel(rest[0]) && AllValidLabels(rest[1..]) by {
          assert forall i :: 1 <= i < |rest| ==> rest[i] == rest[1..][i - 1];
        }
      } else {
        assert labels[0] == [s[0]] + rest[0] && labels[1..] == rest[1..];
        LabelRestStep(st, s[0], rest[0]);
      }
    }
  }

  /** `validSubdomain(s)`: the whole of `s` matches the label grammar. */
  predicate ValidSubdomain(s: string)
  {
    Scan(LabelStart, s) == AfterAlnum
  }

  /**
   * A subdomain is valid exactly when it splits on '.' into valid labels
   * only. So "" (one empty label), a trailing dot and two dots in a row are
   * all refused.
   */
  lemma SubdomainLabels(s: string)
    ensures ValidSubdomain(s) <==> s != [] && AllValidLabels(Split(s, '.'))
  {
    var labels := Split(s, '.');
    ScanAccepts(LabelStart, s);
    assert AllValidLabels(labels) <==> ValidLabel(labels[0]) && AllValidLabels(labels[1..]) by {
      assert forall i :: 1 <= i < |labels| ==> labels[i] == labels[1..][i - 1];
    }
    assert s == [] ==> labels == [[]];
  }

  /**
   * The regular expression's own reading: a subdomain is valid exactly when
   * it is one or more valid labels joined by single dots.
   */
  lemma SubdomainIsJoinedLabels(s: string)
    ensures ValidSubdomain(s) ==> exists labels :: |labels| >= 1 && AllValidLabels(labels) && JoinWith(labels, '.') == s
    ensures forall labels :: |labels| >= 1 && AllValidLabels(labels) && JoinWith(labels, '.') == s ==> ValidSubdomain(s)
  {
    SubdomainLabels(s);
    JoinSplit(s, '.');
    forall labels | |labels| >= 1 && AllValidLabels(labels) && JoinWith(labels, '.') == s
      ensures ValidSubdomain(s)
    {
      assert forall i :: 0 <= i < |labels| ==> '.' !in labels[i] by {
        forall i | 0 <= i < |labels| ensures '.' !in labels[i] {
          assert ValidLabel(labels[i]);
          assert !IsLabelChar('.');
        }
      }
      SplitJoin(labels, '.');
    }
  }

  /** A single valid label, such as a UUID in its hyphenated form, is a valid subdomain. */
  lemma SingleLabelSubdomain(l: string)
    requires ValidLabel(l)
    ensures ValidSubdomain(l)
  {
    SubdomainIsJoinedLabels(l);
    assert JoinWith([l], '.') == l;
    assert AllValidLabels([l]);
  }

  /** Whatever the scanner has not rejected holds only `[a-z0-9.-]`. */
  lemma {:induction false} ScanSurvivorsChars(st: ScanState, s: string)
    requires Scan(st, s) != Rejected
    ensures forall i :: 0 <= i < |s| ==> IsLabelChar(s[i]) || s[i] == '.'
    decreases |s|
  {
    if s != [] {
      if Step(st, s[0]) == Rejected {
        ScanRejectedStays(s[1..]);
      } else {
        ScanSurvivorsChars(Step(st, s[0]), s[1..]);
        assert forall i :: 1 <= i < |s| ==> s[i] == s[1..][i - 1];
      }
    }
  }

  /** A valid subdomain holds only lowercase letters, digits, '-' and '.': any other rune, an uppercase letter included, refuses it. */
  lemma SubdomainAlphabet(s: string)
    ensures ValidSubdomain(s) ==> forall i :: 0 <= i < |s| ==> IsLowerAlnum(s[i]) || s[i] == '-' || s[i] == '.'
  {
    if ValidSubdomain(s) {
      ScanSurvivorsChars(LabelStart, s);
    }
  }

  /** Two valid subdomains joined by a dot make a valid subdomain. */
  lemma DotJoinedSubdomain(a: string, b: string)
    requires ValidSubdomain(a) && ValidSubdomain(b)
    ensures ValidSubdomain(a + "." + b)
  {
    ScanConcat(LabelStart, a, "." + b);
    ScanConcat(AfterAlnum, ".", b);
    assert a + "." + b == a + ("." + b);
  }

  /** One character outside `[a-z0-9.-]` anywhere refuses a subdomain. */
  lemma SubdomainForeignChar(s: string, i: nat)
    requires i < |s| && !IsLowerAlnum(s[i]) && s[i] != '-' && s[i] != '.'
    ensures !ValidSubdomain(s)
  {
    SubdomainAlphabet(s);
  }

  // ---------------------------------------------------------------------------
  // validTXT
  // ---------------------------------------------------------------------------

  /** The characters a TXT value may hold: `[A-Za-z0-9_.-]`. */
  predicate IsTxtChar(c: char)
  {
    'A' <= c <= 'Z' || 'a' <= c <= 'z' || '0' <= c <= '9' || c == '_' || c == '.' || c == '-'
  }

  /**
   * `validTXT(s)`: removing every character outside `[A-Za-z0-9_.-]` leaves
   * `s` unchanged, and `count + 1` is a multiple of 44. Where the dots stand is
   * not checked.
   */
  function ValidTxt(s: string): (valid: bool)
    ensures valid <==> (forall i :: 0 <= i < |s| ==> IsTxtChar(s[i])) && (|s| + 1) % 44 == 0
  {
    var stripped := Keep(s, IsTxtChar);
    stripped == s && (|s| + 1) % 44 == 0
  }

  predicate TxtGroup(g: string)
  {
    |g| == 43 && forall i :: 0 <= i < |g| ==> IsTxtChar(g[i])
  }

  /** One or more 43-character groups joined by dots, as an ACME challenge value is sent. */
  lemma {:induction false} JoinedGroupsShape(groups: seq<string>)
    requires |groups| >= 1
    requires forall i :: 0 <= i < |groups| ==> TxtGroup(groups[i])
    ensures |JoinWith(groups, '.')| == 44 * |groups| - 1
    ensures forall i :: 0 <= i < |JoinWith(groups, '.')| ==> IsTxtChar(JoinWith(groups, '.')[i])
    decreases |groups|
  {
    if |groups| > 1 {
      JoinedGroupsShape(groups[1..]);
      var g, tail := groups[0], JoinWith(groups[1..], '.');
      var joined := g + ['.'] + tail;
      assert TxtGroup(g);
      forall i | 0 <= i < |joined| ensures IsTxtChar(joined[i]) {
        if i < 43 { assert joined[i] == g[i]; }
        else if i > 43 { assert joined[i] == tail[i - 44]; }
      }
    } else {
      assert TxtGroup(groups[0]);
    }
  }

  /** Every dot-joined sequence of 43-character groups is a valid TXT value. */
  lemma JoinedGroupsValid(groups: seq<string>)
    requires |groups| >= 1
    requires forall i :: 0 <= i < |groups| ==> TxtGroup(groups[i])
    ensures ValidTxt(JoinWith(groups, '.'))
  {
    JoinedGroupsShape(groups);
    MultipleOf44(|groups|);
  }

  lemma {:induction false} MultipleOf44(n: nat)
    ensures (44 * n) % 44 == 0
  {
    if n > 0 {
      MultipleOf44(n - 1);
      assert 44 * n == 44 * (n - 1) + 44;
    }
  }
}
