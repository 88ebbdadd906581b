/**
 * Worked examples of the certbot hook's pure core, for the account layout
 * the hook documents: an exact domain, a wildcard domain and the catch-all "*".
 */
module AuthHookCases {
  import opened Wrappers
  import opened Text
  import opened AuthHook

  /**
   * A three-label domain `a.b.c` is looked up as itself, then as
   * "*.a.b.c", "*.b.c", "*.c" and finally "*".
   */
  lemma ThreeLabelCandidates(a: string, b: string, c: string)
    requires '.' !in a && '.' !in b && '.' !in c
    ensures var key := a + "." + b + "." + c;
      Candidates(key) == [key, "*." + key, "*." + b + "." + c, "*." + c, "*"]
  {
    var key := a + "." + b + "." + c;
    var parts := [a, b, c];
    assert JoinWith([c], '.') == c;
    assert JoinWith([b, c], '.') == b + "." + c;
    assert JoinWith(parts, '.') == key;
    SplitJoin(parts, '.');
    assert Split(key, '.') == parts;
    assert parts[1..] == [b, c] && parts[2..] == [c];
    var cs := Candidates(key);
    assert |cs| == 5;
    assert cs[2] == "*." + (b + "." + c) == "*." + b + "." + c;
    assert cs[3] == "*." + c;
    assert cs[4] == "*";
    assert cs == [cs[0], cs[1], cs[2], cs[3], cs[4]];
  }

  /** For a three-label domain, the k-th key tried decides when it is the first one present. */
  lemma ThreeLabelLookup(data: map<string, Account>, a: string, b: string, c: string, k: nat)
    requires '.' !in a && '.' !in b && '.' !in c
    requires k < 5
    requires var key := a + "." + b + "." + c;
      var tried := [key, "*." + key, "*." + b + "." + c, "*." + c, "*"];
      tried[k] in data && forall j :: 0 <= j < k ==> tried[j] !in data
    ensures var key := a + "." + b + "." + c;
      Lookup(data, key) == Some(data[[key, "*." + key, "*." + b + "." + c, "*." + c, "*"][k]])
  {
    ThreeLabelCandidates(a, b, c);
    FirstPresentAt(data, Candidates(a + "." + b + "." + c), k);
  }

  const ExactAccount := Account("aa", "abc")
  const WildcardAccount := Account("bb", "abc")
  const FallbackAccount := Account("cc", "abc")

  /** The documented layout: one exact domain, one wildcard domain, and "*". */
  const Accounts := map["example.com" := ExactAccount, "*.whatever.nl" := WildcardAccount, "*" := FallbackAccount]

  /** An exact entry is used for its own name. */
  lemma ExactDomainFound()
    ensures Lookup(Accounts, "example.com") == Some(ExactAccount)
  {
    ExactKeyFirst(Accounts, "example.com");
  }

  /** The keys of the documented layout. */
  lemma AccountKeys(k: string)
    ensures k in Accounts <==> k == "example.com" || k == "*.whatever.nl" || k == "*"
  {
  }

  /** Below "whatever.nl", only "*.whatever.nl" itself is a key of the layout, and no "*." + name is. */
  lemma WildcardChildKeys(sub: string)
    ensures sub + ".whatever.nl" in Accounts ==> sub + ".whatever.nl" == "*.whatever.nl"
    ensures "*." + (sub + ".whatever.nl") !in Accounts
  {
    var key := sub + ".whatever.nl";
    AccountKeys(key);
    AccountKeys("*." + key);
    assert |key| == 13 ==> key[1] == '.';
  }

  /** Every name one label below a wildcard entry gets that entry. */
  lemma WildcardDomainFound(sub: string)
    requires '.' !in sub
    ensures Lookup(Accounts, sub + ".whatever.nl") == Some(WildcardAccount)
  {
    WildcardChildKeys(sub);
    if sub + ".whatever.nl" in Accounts {
      ExactKeyFirst(Accounts, "*.whatever.nl");
    } else {
      WildcardOfChildFound(sub);
    }
  }

  /** A name below "whatever.nl" that is not itself a key reaches "*.whatever.nl" second. */
  lemma WildcardOfChildFound(sub: string)
    requires '.' !in sub && sub + ".whatever.nl" !in Accounts
    ensures Lookup(Accounts, sub + ".whatever.nl") == Some(WildcardAccount)
  {
    var key := sub + "." + "whatever" + "." + "nl";
    assert key == sub + ".whatever.nl";
    WildcardChildKeys(sub);
    assert "*." + "whatever" + "." + "nl" == "*.whatever.nl";
    ThreeLabelLookup(Accounts, sub, "whatever", "nl", 2);
  }

  /** The first four keys tried for a name below "example.com" are not in the layout. */
  lemma ExactParentAbsent(sub: string)
    ensures sub + ".example.com" !in Accounts
    ensures "*." + (sub + ".example.com") !in Accounts
    ensures "*.example.com" !in Accounts && "*.com" !in Accounts
  {
    var key := sub + ".example.com";
    AccountKeys(key);
    AccountKeys("*." + key);
    assert |key| == 13 ==> key[2] == 'e';
    assert "*.example.com"[2] == 'e';
  }

  /** An exact entry does not cover the names below it: they fall through to "*". */
  lemma SubdomainOfExactFallsBack(sub: string)
    requires '.' !in sub
    ensures Lookup(Accounts, sub + ".example.com") == Some(FallbackAccount)
  {
    var key := sub + "." + "example" + "." + "com";
    assert key == sub + ".example.com";
    ExactParentAbsent(sub);
    assert "*." + "example" + "." + "com" == "*.example.com" && "*." + "com" == "*.com";
    ThreeLabelLookup(Accounts, sub, "example", "com", 4);
  }

  /** certbot's wildcard domain and its base name both select the base name's account. */
  lemma WildcardRequestUsesBaseName()
    ensures StripWildcard("*.example.com") == "example.com"
    ensures StripWildcard("example.com") == "example.com"
  {
    StripWildcardOfWildcard("example.com");
    assert "example.com"[0] != '*';
  }

  /** Credentials without a '/' before them are refused. */
  lemma UrlWithoutSlashRefused()
    ensures SplitBasicAuth("user:pass" + "@" + "acme-dns") == Failure(NoSlashBeforeAt)
  {
    SplitWithoutSlash("user:pass", "acme-dns");
  }

  /** A URL without '@' is used as it is, without credentials. */
  lemma UrlWithoutCredentials()
    ensures SplitBasicAuth("http://dns") == Success(("http://dns", None))
  {
    assert '@' !in "http://dns";
  }
}
