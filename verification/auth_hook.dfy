/**
 * The pure core of the certbot authentication hook (acme-dns-auth-ossobv.py):
 * the account lookup with wildcard fallback (`Storage.fetch`), the removal of
 * a leading "*." from the certbot domain, and the extraction of basic-auth
 * credentials from the configured acme-dns URL, composed as `main` does.
 */
module AuthHook {
  import opened Wrappers
  import opened Text

  /** One entry of accounts.json: the acme-dns credentials for a domain. */
  datatype Account = Account(username: string, password: string)

  // ---------------------------------------------------------------------------
  // Storage.fetch
  // ---------------------------------------------------------------------------

  /** The i-th wildcard tried for a key: "*" joined by dots to the labels from the i-th on. */
  function WildcardCandidate(parts: seq<string>, i: nat): string
    requires i <= |parts|
  {
    JoinWith(["*"] + parts[i..], '.')
  }

  /**
   * The wildcards tried for a key, in order: `"*." + key`, then one label
   * fewer each time, down to the bare `"*"`.
   */
  lemma WildcardShape(key: string, i: nat)
    requires i <= |Split(key, '.')|
    ensures var parts := Split(key, '.');
      && (i < |parts| ==> WildcardCandidate(parts, i) == "*." + JoinWith(parts[i..], '.'))
      && (i == 0 ==> WildcardCandidate(parts, i) == "*." + key)
      && (i == |parts| ==> WildcardCandidate(parts, i) == "*")
  {
    var parts := Split(key, '.');
    var ps := ["*"] + parts[i..];
    if i < |parts| {
      assert ps[1..] == parts[i..];
    }
    if i == 0 {
      JoinSplit(key, '.');
      assert parts[0..] == parts;
    }
  }

  /**
   * Every key `fetch` tries, in order: the key itself, then "*." + key, then
   * "*." before the labels from the i-th on, one label fewer each time, and
   * finally the bare "*".
   */
  function Candidates(key: string): (cs: seq<string>)
    ensures |cs| == |Split(key, '.')| + 2
    ensures cs[0] == key
    ensures cs[1] == "*." + key
    ensures forall i :: 1 <= i < |cs| - 1 ==> cs[i] == "*." + JoinWith(Split(key, '.')[i - 1..], '.')
    ensures cs[|cs| - 1] == "*"
    ensures forall i :: 1 <= i < |cs| ==> cs[i] == WildcardCandidate(Split(key, '.'), i - 1)
  {
    var parts := Split(key, '.');
    var cs := [key] + seq(|parts| + 1, i requires 0 <= i <= |parts| => WildcardCandidate(parts, i));
    assert forall i :: 1 <= i < |cs| - 1 ==> cs[i] == "*." + JoinWith(parts[i - 1..], '.') by {
      forall i | 1 <= i < |cs| - 1 ensures cs[i] == "*." + JoinWith(parts[i - 1..], '.') {
        WildcardShape(key, i - 1);
      }
    }
    WildcardShape(key, 0);
    WildcardShape(key, |parts|);
    cs
  }

  /** The value of the first of `cs` that `data` holds. */
  function FirstPresent(data: map<string, Account>, cs: seq<string>): (r: Option<Account>)
    ensures r.None? <==> forall i :: 0 <= i < |cs| ==> cs[i] !in data
    decreases |cs|
  {
    if cs == [] then None
    else if cs[0] in data then Some(data[cs[0]])
    else
      var r := FirstPresent(data, cs[1..]);
      assert forall i :: 1 <= i < |cs| ==> cs[i] == cs[1..][i - 1];
      r
  }

  /** What `fetch(key)` returns for the accounts in `data`. */
  function Lookup(data: map<string, Account>, key: string): Option<Account>
  {
    FirstPresent(data, Candidates(key))
  }

  /** The first present candidate decides the result. */
  lemma {:induction false} FirstPresentAt(data: map<string, Account>, cs: seq<string>, k: nat)
    requires k < |cs| && cs[k] in data
    requires forall j :: 0 <= j < k ==> cs[j] !in data
    ensures FirstPresent(data, cs) == Some(data[cs[k]])
    decreases k
  {
    if k > 0 {
      assert cs[0] !in data;
      FirstPresentAt(data, cs[1..], k - 1);
    }
  }

  /** A result comes from a present candidate with no present candidate before it. */
  lemma {:induction false} FirstPresentSource(data: map<string, Account>, cs: seq<string>)
    requires FirstPresent(data, cs).Some?
    ensures exists k :: 0 <= k < |cs| && cs[k] in data && FirstPresent(data, cs) == Some(data[cs[k]])
                        && forall j :: 0 <= j < k ==> cs[j] !in data
    decreases |cs|
  {
    if cs[0] !in data {
      FirstPresentSource(data, cs[1..]);
      var k :| 0 <= k < |cs[1..]| && cs[1..][k] in data && FirstPresent(data, cs[1..]) == Some(data[cs[1..][k]])
               && forall j :: 0 <= j < k ==> cs[1..][j] !in data;
      assert cs[k + 1] == cs[1..][k];
      assert forall j :: 1 <= j < k + 1 ==> cs[j] == cs[1..][j - 1];
    }
  }

  /** An account stored under the exact key wins over every wildcard. */
  lemma ExactKeyFirst(data: map<string, Account>, key: string)
    requires key in data
    ensures Lookup(data, key) == Some(data[key])
  {
    FirstPresentAt(data, Candidates(key), 0);
  }

  /**
   * Without an exact entry, the most specific wildcard present wins: the i-th
   * wildcard is used when it is present and no wildcard before it is.
   */
  lemma MostSpecificWildcard(data: map<string, Account>, key: string, i: nat)
    requires key !in data
    requires i <= |Split(key, '.')|
    requires WildcardCandidate(Split(key, '.'), i) in data
    requires forall j :: 0 <= j < i ==> WildcardCandidate(Split(key, '.'), j) !in data
    ensures Lookup(data, key) == Some(data[WildcardCandidate(Split(key, '.'), i)])
  {
    var parts, cs := Split(key, '.'), Candidates(key);
    forall j | 0 <= j < i + 1 ensures cs[j] !in data {
      if j > 0 { assert cs[j] == WildcardCandidate(parts, j - 1); }
    }
    FirstPresentAt(data, cs, i + 1);
  }

  /** `fetch` gives None exactly when neither the key nor any of its wildcards is stored. */
  lemma LookupNone(data: map<string, Account>, key: string)
    ensures Lookup(data, key).None? <==>
      key !in data && forall i :: 0 <= i <= |Split(key, '.')| ==> WildcardCandidate(Split(key, '.'), i) !in data
  {
    var parts, cs := Split(key, '.'), Candidates(key);
    assert Lookup(data, key) == FirstPresent(data, cs);
    if FirstPresent(data, cs).None? {
      assert cs[0] == key;
      forall i | 0 <= i <= |parts| ensures WildcardCandidate(parts, i) !in data {
        assert cs[i + 1] == WildcardCandidate(parts, i);
      }
    } else {
      var j :| 0 <= j < |cs| && cs[j] in data;
      if j > 0 {
        assert WildcardCandidate(Split(key, '.'), j - 1) in data;
      }
    }
  }

  /** A found account is the value stored under the key or under one of its wildcards. */
  lemma LookupSource(data: map<string, Account>, key: string)
    requires Lookup(data, key).Some?
    ensures exists c :: c in Candidates(key) && c in data && Lookup(data, key) == Some(data[c])
  {
    var cs := Candidates(key);
    FirstPresentSource(data, cs);
    var k :| 0 <= k < |cs| && cs[k] in data && FirstPresent(data, cs) == Some(data[cs[k]])
             && forall j :: 0 <= j < k ==> cs[j] !in data;
    assert cs[k] in cs;
  }

  /** accounts.json once loaded: a read-only map from domain patterns to accounts. */
  class Storage {
    const data: map<string, Account>

    /** `Storage(path)` after the JSON file has been read into `loaded`. */
    constructor (loaded: map<string, Account>)
      ensures data == loaded
    {
      data := loaded;
    }

    /** `fetch(key)`: the exact key first, then each wildcard from the most specific. */
    method Fetch(key: string) returns (r: Option<Account>)
      ensures r == Lookup(data, key)
    {
      if key in data {
        ExactKeyFirst(data, key);
        return Some(data[key]);
      }
      var keyParts := Split(key, '.');
      var i := 0;
      while i < |keyParts| + 1
        invariant 0 <= i <= |keyParts| + 1
        invariant forall j :: 0 <= j < i ==> WildcardCandidate(keyParts, j) !in data
      {
        var domain := JoinWith(["*"] + keyParts[i..], '.');
        if domain in data {
          MostSpecificWildcard(data, key, i);
          return Some(data[domain]);
        }
        i := i + 1;
      }
      LookupNone(data, key);
      return None;
    }
  }

  // ---------------------------------------------------------------------------
  // main: the certbot domain and the acme-dns URL
  // ---------------------------------------------------------------------------

  /** certbot's domain with a leading "*." removed, if it has one. */
  function StripWildcard(domain: string): (d: string)
    ensures "*." <= domain ==> "*." + d == domain
    ensures !("*." <= domain) ==> d == domain
  {
    if "*." <= domain then domain[2..] else domain
  }

  /** Removing "*." undoes adding it. */
  lemma StripWildcardOfWildcard(d: string)
    ensures StripWildcard("*." + d) == d
  {
    assert "*." <= "*." + d;
  }

  /** The credentials found before '@': the user, and the password after the first ':' if any. */
  datatype Credentials = Credentials(username: string, password: Option<string>)

  /** The text the credentials were taken from. */
  function CredentialsText(c: Credentials): string
  {
    match c.password
    case None => c.username
    case Some(p) => c.username + ":" + p
  }

  /** The credentials in `userinfo`: the user, and the password after the first ':' if there is one. */
  function ParseCredentials(userinfo: string): (c: Credentials)
    ensures CredentialsText(c) == userinfo
    ensures ':' !in c.username
  {
    match IndexOf(userinfo, ':')
    case None => Credentials(userinfo, None)
    case Some(colon) =>
      assert userinfo == userinfo[..colon] + ":" + userinfo[colon + 1..];
      Credentials(userinfo[..colon], Some(userinfo[colon + 1..]))
  }

  /** Credentials whose user holds no ':' are read back from their text. */
  lemma ParseCredentialsText(c: Credentials)
    requires ':' !in c.username
    ensures ParseCredentials(CredentialsText(c)) == c
  {
    var text := CredentialsText(c);
    if c.password.Some? {
      assert text[..|c.username|] == c.username;
      assert text[|c.username|] == ':' && text[|c.username| + 1..] == c.password.value;
      assert IndexOf(text, ':') == Some(|c.username|);
    }
  }

  /** The error raised when the part before '@' holds no '/' (an IndexError in the hook). */
  datatype UrlError = NoSlashBeforeAt

  /**
   * The basic-auth split of `acmedns_url`: split at the first '@'; the new URL
   * is the head up to its last '/', then '/', then the tail; the credentials
   * are the head after its last '/', split at the first ':'. A URL without
   * '@' is kept as it is, without credentials.
   */
  function SplitBasicAuth(url: string): (r: Result<(string, Option<Credentials>), UrlError>)
    ensures '@' !in url ==> r == Success((url, None))
    ensures '@' in url ==> (r.Success? <==> '/' in url[..IndexOf(url, '@').value])
    ensures r.Success? && '@' in url ==> r.value.1.Some?
  {
    match IndexOf(url, '@')
    case None => Success((url, None))
    case Some(at) =>
      var head, tail := url[..at], url[at + 1..];
      match LastIndexOf(head, '/')
      case None => Failure(NoSlashBeforeAt)
      case Some(slash) => Success((head[..slash] + "/" + tail, Some(ParseCredentials(head[slash + 1..]))))
  }

  /**
   * Splitting recovers what a URL was built from: the part before the
   * credentials' slash (free of '@'), a user without '/', '@' or ':', a
   * password without '/' or '@', and any rest.
   */
  lemma SplitComposedUrl(base: string, user: string, password: Option<string>, rest: string)
    requires '@' !in base
    requires '/' !in user && '@' !in user && ':' !in user
    requires password.Some? ==> '/' !in password.value && '@' !in password.value
    ensures var c := Credentials(user, password);
      SplitBasicAuth(base + "/" + CredentialsText(c) + "@" + rest) == Success((base + "/" + rest, Some(c)))
  {
    var c := Credentials(user, password);
    var info := CredentialsText(c);
    var head := base + "/" + info;
    var url := head + "@" + rest;
    var at, slash := |head|, |base|;
    assert '@' !in info && '/' !in info;
    assert url[..at] == head && url[at + 1..] == rest;
    assert url[..slash] == base && url[slash + 1..at] == info;
    SplitBasicAuthAt(url, at, slash);
    ParseCredentialsText(c);
  }

  /** Credentials with no '/' before them make the split fail. */
  lemma SplitWithoutSlash(userinfo: string, rest: string)
    requires '@' !in userinfo && '/' !in userinfo
    ensures SplitBasicAuth(userinfo + "@" + rest) == Failure(NoSlashBeforeAt)
  {
    var url := userinfo + "@" + rest;
    assert url[|userinfo|] == '@' && url[..|userinfo|] == userinfo;
    assert IndexOf(url, '@') == Some(|userinfo|);
  }

  /**
   * Conversely, a URL split with credentials is made of a part free of '@',
   * a '/', the credentials' text, '@' and the rest; the new URL drops the
   * credentials and the '@' and keeps everything else.
   */
  lemma SplitUrlParts(url: string)
    requires SplitBasicAuth(url).Success? && SplitBasicAuth(url).value.1.Some?
    ensures exists base, rest :: && '@' !in base
                                 && url == base + "/" + CredentialsText(SplitBasicAuth(url).value.1.value) + "@" + rest
                                 && SplitBasicAuth(url).value.0 == base + "/" + rest
  {
    var at := IndexOf(url, '@').value;
    var slash := LastIndexOf(url[..at], '/').value;
    SplitUrlIndices(url, at, slash);
    SplitBasicAuthAt(url, at, slash);
    assert CredentialsText(SplitBasicAuth(url).value.1.value) == url[slash + 1..at];
    var base, rest := url[..slash], url[at + 1..];
    assert '@' !in base && url == base + "/" + url[slash + 1..at] + "@" + rest;
  }

  /**
   * The split of a URL whose first '@' is at `at` and whose last '/' before
   * it is at `slash`: the new URL drops the text between them and the '@';
   * the credentials are that text.
   */
  lemma SplitBasicAuthAt(url: string, at: nat, slash: nat)
    requires at < |url| && url[at] == '@' && '@' !in url[..at]
    requires slash < at && url[slash] == '/' && '/' !in url[slash + 1..at]
    ensures SplitBasicAuth(url) == Success((url[..slash] + "/" + url[at + 1..], Some(ParseCredentials(url[slash + 1..at]))))
  {
    IndexOfAt(url, '@', at);
    assert url[..at][..slash] == url[..slash];
    assert url[..at][slash + 1..] == url[slash + 1..at];
    LastIndexOfAt(url[..at], '/', slash);
  }

  /** The pieces of a URL around its first '@' and the last '/' before it. */
  lemma SplitUrlIndices(url: string, at: nat, slash: nat)
    requires IndexOf(url, '@') == Some(at)
    requires LastIndexOf(url[..at], '/') == Some(slash)
    ensures slash < at < |url|
    ensures url == url[..slash] + "/" + url[slash + 1..at] + "@" + url[at + 1..]
    ensures '@' !in url[..slash]
  {
    var head := url[..at];
    SplitAt(url, at);
    SplitAt(head, slash);
    assert head[..slash] == url[..slash] && head[slash + 1..] == url[slash + 1..at];
    PrefixFree(url[..at], slash, '@');
  }

  /** A character missing from `s` is missing from every prefix of `s`. */
  lemma PrefixFree(s: string, k: nat, c: char)
    requires k <= |s| && c !in s
    ensures c !in s[..k]
  {
    assert forall j :: 0 <= j < k ==> s[..k][j] == s[j];
  }

  /** `s` is the part before position k, the character at k, and the part after. */
  lemma SplitAt(s: string, k: nat)
    requires k < |s|
    ensures s == s[..k] + [s[k]] + s[k + 1..]
  {
  }

  // ---------------------------------------------------------------------------
  // main: putting it together
  // ---------------------------------------------------------------------------

  /** What the hook sends to acme-dns: where, with which credentials, for which account. */
  datatype Update = Update(url: string, basicAuth: Option<Credentials>, account: Account,
                           domain: string, txt: string)

  /** Why the hook stops before sending an update. */
  datatype HookError =
    | BadUrl(error: UrlError) // the URL split fails (IndexError)
    | NoAccount              // `assert account` fails: no entry for the domain

  /**
   * The pure part of `main`: strip "*." from the certbot domain, split the
   * configured URL, and look the stripped domain up in storage.
   */
  method PrepareUpdate(storage: Storage, certbotDomain: string, validation: string, acmednsUrl: string)
    returns (r: Result<Update, HookError>)
    ensures r.Success? <==>
              SplitBasicAuth(acmednsUrl).Success? && Lookup(storage.data, StripWildcard(certbotDomain)).Some?
    ensures SplitBasicAuth(acmednsUrl).Failure? ==> r == Failure(BadUrl(NoSlashBeforeAt))
    ensures SplitBasicAuth(acmednsUrl).Success? && Lookup(storage.data, StripWildcard(certbotDomain)).None? ==>
              r == Failure(NoAccount)
    ensures r.Success? ==>
              && Some(r.value.account) == Lookup(storage.data, StripWildcard(certbotDomain))
              && (r.value.url, r.value.basicAuth) == SplitBasicAuth(acmednsUrl).value
              && r.value.domain == StripWildcard(certbotDomain)
              && r.value.txt == validation
  {
    var domain := StripWildcard(certbotDomain);
    var split := SplitBasicAuth(acmednsUrl);
    if split.Failure? {
      return Failure(BadUrl(split.error));
    }
    var (url, basicAuth) := split.value;
    var account := storage.Fetch(domain);
    if account.None? {
      return Failure(NoAccount);
    }
    return Success(Update(url, basicAuth, account.value, domain, validation));
  }
}
