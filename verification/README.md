# acme-dns input validation and the certbot hook, in Dafny

This project models two parts of the ossobv fork of acme-dns.

**Input validation (`validation.go`).** The HTTP API uses these checks on what clients send:

- A username must be lowercase and parse as a UUID.
- An API key must be exactly 40 characters from `[A-Za-z0-9_-]`.
- A subdomain must be one or more DNS labels joined by dots. Each label is lowercase letters, digits and inner hyphens.
- A TXT value must use only `[A-Za-z0-9_.-]`, and its length plus one must be a multiple of 44.

**The certbot authentication hook (`acme-dns-auth-ossobv.py`).** Three pieces are modelled:

- `Storage.fetch` finds the acme-dns account for a domain. It tries the exact name first, then the wildcards `*.<name>`, `*.<parent>`, … down to `*`.
- `main` strips a leading `*.` from the domain certbot asks about.
- `main` takes basic-auth credentials out of the configured acme-dns URL.

The modules are:

- `Wrappers` holds `Option` and `Result`.
- `Text` holds the string operations both sides use, each with its inverse or a characterisation: split at a separator, join with a separator, filter characters, and find the first or last occurrence of a character.
- `Validation` holds the validators.
  - `uuid.Parse` is a collaborator this model does not contain. It is passed to `GetValidUsername` as a parameter of type `UuidParser`.
  - The subdomain regular expression becomes a left-to-right scanner. It is proved equal to "split on dots, every label valid" and to "some non-empty list of valid labels joined by dots".
- `AuthHook` holds the hook.
  - `Storage` is a class whose `const data` is the loaded accounts file. `Fetch` is the loop from the source, proved equal to the specification function `Lookup`.
  - `PrepareUpdate` composes the pure part of `main`.
- `ValidationCases` and `AuthHookCases` state the rows of the Go test tables, and the account layout documented in the hook, as lemmas.

## Model

| member | source | states |
|---|---|---|
| Text.Split | acme-dns-auth-ossobv.py:86 | splitting yields at least one piece and no piece contains the separator |
| Text.JoinWith | acme-dns-auth-ossobv.py:88 | the parts with the separator between neighbours; its meaning is fixed by `Text.JoinSplit` and `Text.SplitJoin`, which make it the inverse of `Text.Split` |
| Text.JoinSplit | acme-dns-auth-ossobv.py:86-88 | joining the pieces of a split gives the original string back |
| Text.SplitJoin | acme-dns-auth-ossobv.py:86-88 | splitting a join of separator-free pieces gives the same pieces back |
| Text.SplitSepFreePrefix | acme-dns-auth-ossobv.py:86 | a separator-free prefix merges into the first piece of the split of the rest |
| Text.Keep | validation.go:52-54 | the filtered string keeps only allowed characters, is no longer than the input, and equals the input exactly when every character is allowed |
| Text.IndexOf | acme-dns-auth-ossobv.py:108 | None exactly when the character is absent; otherwise the position holds it and nothing before it does |
| Text.IndexOfAt | acme-dns-auth-ossobv.py:108 | the first occurrence is unique: any position holding the character with none before it is the result |
| Text.LastIndexOf | acme-dns-auth-ossobv.py:109-110 | None exactly when the character is absent; otherwise the position holds it and nothing after it does |
| Text.LastIndexOfAt | acme-dns-auth-ossobv.py:109-110 | the last occurrence is unique: any position holding the character with none after it is the result |
| Validation.ToLower | validation.go:16 | lowercasing keeps the length, leaves no uppercase letter, and changes the string exactly when it holds an uppercase letter |
| Validation.GetValidUsername | validation.go:13-24 | an uppercase letter gives the nil UUID with the lowercase error; otherwise a parse failure gives the nil UUID with the parser's error; success happens exactly when the input is lowercase and parses, and then returns the parser's UUID |
| Validation.SanitizeString | validation.go:27 | drops every character outside `[A-Za-z0-9_-]`; what that means follows from `Text.Keep`'s contract and is used by `Validation.ValidKey` |
| Validation.ValidKey | validation.go:26-33 | a key is valid exactly when it has 40 characters, all from `[A-Za-z0-9_-]` |
| Validation.Step | validation.go:37 | one step of the subdomain pattern: a lowercase letter or digit may start or continue a label, '-' only continues one, '.' only ends a label that ended in a letter or digit; anything else rejects. Its meaning is given by `Validation.ScanAccepts` |
| Validation.Scan | validation.go:37-38 | runs `Step` over the string; characterised by `Validation.ScanConcat`, `Validation.ScanRejectedStays` and `Validation.ScanAccepts` |
| Validation.ValidSubdomain | validation.go:35-48 | the pattern matches exactly when the scan ends right after a letter or digit; its meaning is given by `Validation.SubdomainLabels` and `Validation.SubdomainIsJoinedLabels` |
| Validation.ScanConcat | validation.go:37-38 | scanning a concatenation is scanning its parts one after the other |
| Validation.ScanRejectedStays | validation.go:37-38 | once rejected, the scanner stays rejected |
| Validation.ScanAccepts | validation.go:37-38 | from any scanner state, acceptance means the current label can be finished and every later label is valid |
| Validation.SubdomainLabels | validation.go:35-48 | a subdomain is valid exactly when it is non-empty and every dot-separated label is non-empty, `[a-z0-9-]` only, and neither starts nor ends with '-' |
| Validation.SubdomainIsJoinedLabels | validation.go:35-48 | a subdomain is valid exactly when it is some non-empty list of valid labels joined by dots (both directions) |
| Validation.SingleLabelSubdomain | validation.go:37 | a single valid label is a valid subdomain |
| Validation.DotJoinedSubdomain | validation.go:37 | two valid subdomains joined by a dot form a valid subdomain |
| Validation.ScanSurvivorsChars | validation.go:37-38 | whatever the scanner has not rejected holds only `[a-z0-9.-]` |
| Validation.SubdomainAlphabet | validation.go:37-38 | a valid subdomain holds only lowercase letters, digits, '-' and '.' |
| Validation.SubdomainForeignChar | validation.go:37-38 | any character outside `[a-z0-9.-]`, an uppercase letter included, makes a subdomain invalid |
| Validation.ValidTxt | validation.go:50-63 | a TXT value is valid exactly when all its characters are from `[A-Za-z0-9_.-]` and its length plus one is a multiple of 44 |
| Validation.JoinedGroupsShape | validation.go:57-59 | n groups of 43 allowed characters joined by dots have length 44n-1 and use only allowed characters |
| Validation.JoinedGroupsValid | validation.go:57-62 | one or more 43-character groups joined by dots always form a valid TXT value |
| ValidationCases.UsernameLowercaseAccepted | validation_test.go:16 | a lowercase UUID the parser accepts is returned as parsed, with no error |
| ValidationCases.UsernameUppercaseRefused | validation_test.go:17 | one uppercase letter gives the nil UUID and the lowercase error, whatever the parser would say |
| ValidationCases.UsernameParserRefusals | validation_test.go:18-20 | lowercase strings the parser refuses give the nil UUID and the parser's error |
| ValidationCases.KeyWrongLengthRefused | validation_test.go:40-44 | the empty key and a 41-character key are refused |
| ValidationCases.KeyLettersAccepted | validation_test.go:41 | 40 letters form a valid key |
| ValidationCases.KeyHyphenUnderscoreAccepted | validation_test.go:42 | 40 characters with '-' and '_' form a valid key |
| ValidationCases.KeyHashRefused | validation_test.go:43 | a '#' among 40 characters is refused |
| ValidationCases.SubdomainUuidAccepted | validation_test.go:59 | a lowercase UUID is a valid subdomain |
| ValidationCases.SubdomainUuidLikeAccepted | validation_test.go:61 | a UUID-shaped string that is not a UUID is still a valid subdomain |
| ValidationCases.SubdomainWordAccepted | validation_test.go:62 | a single word is a valid subdomain |
| ValidationCases.SubdomainTwoLabelsAccepted | validation_test.go:63 | "even-full-tld.style" is a valid subdomain |
| ValidationCases.SubdomainFiveLabelsAccepted | validation_test.go:64 | "and.with.5.parts.too" is a valid subdomain |
| ValidationCases.SubdomainUppercaseWordRefused | validation_test.go:66 | an uppercase word is refused |
| ValidationCases.SubdomainInnerUppercaseRefused | validation_test.go:67 | one uppercase letter inside a label is refused |
| ValidationCases.SubdomainUppercaseFirstRefused | validation_test.go:68 | an uppercase first letter is refused |
| ValidationCases.SubdomainEmptyRefused | validation_test.go:70 | the empty string is refused |
| ValidationCases.SubdomainPunctuationRefused | validation_test.go:71 | punctuation is refused |
| ValidationCases.SubdomainTrailingDotRefused | validation_test.go:72 | a trailing dot is refused |
| ValidationCases.SubdomainDoubleDotRefused | validation_test.go:73 | two dots in a row are refused |
| ValidationCases.TxtDigestAccepted | validation_test.go:87 | 43 letters form a valid TXT value |
| ValidationCases.TxtWrongLengthRefused | validation_test.go:88-90 | 44 and 42 letters are refused |
| ValidationCases.TxtHashRefused | validation_test.go:89 | a '#' among 43 characters is refused |
| ValidationCases.TxtEmptyRefused | validation_test.go:91 | the empty TXT value is refused |
| ValidationCases.TxtSeparatorsNotChecked | validation.go:57-59 | 87 letters with no dot pass, and so do 43 dots: where the dots fall is not checked |
| AuthHook.WildcardCandidate | acme-dns-auth-ossobv.py:88 | the i-th wildcard tried: "*" joined by dots to the labels from the i-th on; its shapes are given by `AuthHook.WildcardShape` |
| AuthHook.WildcardShape | acme-dns-auth-ossobv.py:83-88 | the i-th wildcard is "*." followed by the labels from the i-th on; the first is "*." + key and the last is "*" |
| AuthHook.Candidates | acme-dns-auth-ossobv.py:80-88 | the keys tried are, in order: the key itself; "*." + key; for each later position, "*." followed by the labels from one further on; and last the bare "*" — two more keys than the key has labels |
| AuthHook.Lookup | acme-dns-auth-ossobv.py:76-93 | the specification of `fetch`'s result: the value of the first key tried that the accounts hold; its meaning is given by `AuthHook.ExactKeyFirst`, `AuthHook.MostSpecificWildcard`, `AuthHook.LookupNone` and `AuthHook.LookupSource` |
| AuthHook.FirstPresent | acme-dns-auth-ossobv.py:87-93 | None exactly when no candidate is present |
| AuthHook.FirstPresentAt | acme-dns-auth-ossobv.py:87-92 | the first present candidate decides the result |
| AuthHook.FirstPresentSource | acme-dns-auth-ossobv.py:87-92 | any result is the value of a present candidate with no present candidate before it |
| AuthHook.ExactKeyFirst | acme-dns-auth-ossobv.py:80-81 | a key that is present is returned before any wildcard is tried |
| AuthHook.MostSpecificWildcard | acme-dns-auth-ossobv.py:83-92 | with no exact entry, the first present wildcard in order from most to least specific gives the result |
| AuthHook.LookupNone | acme-dns-auth-ossobv.py:86-93 | the lookup gives None exactly when neither the key nor any of its wildcards is present |
| AuthHook.LookupSource | acme-dns-auth-ossobv.py:76-93 | a found account is the value of the key or of one of its wildcards |
| AuthHook.Storage.constructor | acme-dns-auth-ossobv.py:70-74 | the storage holds the accounts it was loaded with |
| AuthHook.Storage.Fetch | acme-dns-auth-ossobv.py:76-93 | the loop returns exactly what the lookup specifies, without changing the storage |
| AuthHook.StripWildcard | acme-dns-auth-ossobv.py:99-100 | a domain starting with "*." loses exactly those two characters; any other domain is unchanged |
| AuthHook.StripWildcardOfWildcard | acme-dns-auth-ossobv.py:99-100 | removing "*." undoes adding it |
| AuthHook.CredentialsText | acme-dns-auth-ossobv.py:110-112 | the text the credentials were taken from: the user, then ':' and the password when there is one; `AuthHook.ParseCredentials` and `AuthHook.ParseCredentialsText` make it the inverse of the split at ':' |
| AuthHook.ParseCredentials | acme-dns-auth-ossobv.py:110-112 | the credentials print back to their text, and the user holds no ':' |
| AuthHook.ParseCredentialsText | acme-dns-auth-ossobv.py:110-112 | credentials whose user has no ':' are read back from their text |
| AuthHook.SplitBasicAuth | acme-dns-auth-ossobv.py:107-114 | a URL without '@' is kept with no credentials; with '@' the split succeeds exactly when a '/' comes before the first '@', and then it yields credentials |
| AuthHook.SplitBasicAuthAt | acme-dns-auth-ossobv.py:108-112 | given a position holding '@' with no '@' before it, and a position before it holding '/' with no '/' between the two, the split drops the text between them and the '@', and returns that text as the credentials |
| AuthHook.SplitComposedUrl | acme-dns-auth-ossobv.py:107-112 | a URL built from a base, credentials and a rest splits back into the base joined to the rest and those same credentials |
| AuthHook.SplitWithoutSlash | acme-dns-auth-ossobv.py:109-110 | credentials with no '/' before the '@' make the split fail |
| AuthHook.SplitUrlParts | acme-dns-auth-ossobv.py:107-112 | a split with credentials removes exactly "credentials@" after an '@'-free base and '/', and keeps everything else |
| AuthHook.SplitUrlIndices | acme-dns-auth-ossobv.py:108-110 | the URL is the text before the slash, '/', the credentials, '@', and the tail, and no '@' comes before the slash |
| AuthHook.PrepareUpdate | acme-dns-auth-ossobv.py:96-125 | an update is produced exactly when the URL splits and the stripped domain has an account; a bad URL stops the hook; otherwise a domain with no account stops it; an update carries the stripped domain, the split URL and credentials, the account the lookup finds, and the validation token |
| AuthHookCases.ThreeLabelCandidates | acme-dns-auth-ossobv.py:83-88 | a domain a.b.c is tried as itself, then "*.a.b.c", "*.b.c", "*.c" and "*" |
| AuthHookCases.ThreeLabelLookup | acme-dns-auth-ossobv.py:87-92 | for any accounts and any dot-free a, b, c, the first of the five keys tried for a.b.c that is present gives the result |
| AuthHookCases.AccountKeys | acme-dns-auth-ossobv.py:24-27 | the documented layout holds exactly the keys "example.com", "*.whatever.nl" and "*" |
| AuthHookCases.ExactDomainFound | acme-dns-auth-ossobv.py:24-27 | in the documented layout, "example.com" gets its own account |
| AuthHookCases.WildcardDomainFound | acme-dns-auth-ossobv.py:24-27 | in the documented layout, every name one label below "whatever.nl" gets the "*.whatever.nl" account |
| AuthHookCases.WildcardChildKeys | acme-dns-auth-ossobv.py:24-27 | a name one label below "whatever.nl" is a key of the layout only when it is "*.whatever.nl" itself, and "*." before such a name never is |
| AuthHookCases.WildcardOfChildFound | acme-dns-auth-ossobv.py:83-92 | a name one label below "whatever.nl" that is not itself a key gets the "*.whatever.nl" account from the second key tried |
| AuthHookCases.ExactParentAbsent | acme-dns-auth-ossobv.py:24-27 | for a name below "example.com", the name, "*." before it, "*.example.com" and "*.com" are all absent from the layout |
| AuthHookCases.SubdomainOfExactFallsBack | acme-dns-auth-ossobv.py:24-27 | in the documented layout, every name one label below "example.com" misses its account; they fall back to "*" |
| AuthHookCases.WildcardRequestUsesBaseName | acme-dns-auth-ossobv.py:99-100 | "*.example.com" and "example.com" are both looked up as "example.com" |
| AuthHookCases.UrlWithoutSlashRefused | acme-dns-auth-ossobv.py:107-110 | "user:pass@acme-dns" has no '/' before the '@' and is refused |
| AuthHookCases.UrlWithoutCredentials | acme-dns-auth-ossobv.py:113-114 | a URL without '@' is used as it is |

## Left out

- `correctPassword` (validation.go:65-70) only calls bcrypt. The model has nothing of its own to say about it, and bcrypt is not part of this model.
- `uuid.Parse` is not part of this model. `GetValidUsername` takes it as a parameter, so every property holds for any parser.
- `sanitizeString` is defined in a file that is not part of this model. The model takes it to keep exactly `[A-Za-z0-9_-]`.
- Validation.GetValidUsername: lowercasing is ASCII only. Go's `strings.ToLower` also lowercases non-ASCII letters, and those are not refused here.
- Validation.ValidKey: strings are sequences of Unicode code points. Go counts the runes of a byte string, so invalid UTF-8, where each bad byte counts as one rune, is not modelled. The same holds for `ValidTxt`.
- The regular-expression engine and the compilation of the patterns on each call (validation.go:37, 52) are replaced by a scanner and a character filter. Their equivalence to the patterns is stated by the lemmas above, not derived from a regex semantics.
- `cidrslice.ValidEntries`, exercised at validation_test.go:124-144, is not part of this model. It depends on a CIDR parser.
- The `correctPassword` table at validation_test.go:100-122 is left out with the function.
- `AcmeDnsClient.update_txt_record` (acme-dns-auth-ossobv.py:39-67) is left out. It is an HTTP POST with error printing and process exit. `PrepareUpdate` stops at the values that call would receive.
- Loading files and the environment is left out: reading accounts.json in `Storage.__init__`, and reading `CERTBOT_DOMAIN`, `CERTBOT_VALIDATION` and config.json in `main`. The loaded values are parameters.
- The `HTTPBasicAuth` object is not modelled. The credentials are kept as a user and an optional password. With no ':' in the credentials, the Python passes one argument, and that construction fails with a `TypeError` that the model does not represent.
- AuthHook.SplitBasicAuth: a head without '/' raises an `IndexError` in the hook. The model returns `Failure(NoSlashBeforeAt)` instead.
- Accounts are modelled as records with a username and a password. The JSON file may hold other values, which the model cannot represent.
- AuthHook.PrepareUpdate: the hook's `assert account` also fails for a present but empty account (`{}`). Model accounts are never empty, so only a missing entry stops the hook.
