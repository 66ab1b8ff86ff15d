/** The pure string guards of src/utils/security.ts. */
module Security {
  import opened Wrappers
  import opened Strings

  // ---------------------------------------------------------------------------
  // CSV formula-injection guard (sanitizeCsvData)
  // ---------------------------------------------------------------------------

  /** A value handed to `sanitizeCsvData`, which accepts any JavaScript value. */
  datatype Value = Text(s: string) | NonText(id: nat)

  /** The characters of `/^[=+\-@]/`: a spreadsheet reads a cell starting with one as a formula. */
  predicate IsFormulaLead(c: char) {
    c == '=' || c == '+' || c == '-' || c == '@'
  }

  /** The trimmed text starts with a formula character. */
  predicate LooksLikeFormula(s: string) {
    var t := Trim(s);
    t != [] && IsFormulaLead(t[0])
  }

  /** `sanitizeCsvData` on a string: a formula-looking cell gets a leading `'`, any other is untouched. */
  function SanitizeCell(s: string): (r: string)
    ensures LooksLikeFormula(s) ==> r == "'" + s
    ensures !LooksLikeFormula(s) ==> r == s
    ensures !LooksLikeFormula(r)
  {
    if LooksLikeFormula(s) then
      TrimKeepsHead("'" + s);
      "'" + s
    else s
  }

  /** `sanitizeCsvData`: non-strings pass through unchanged. */
  function SanitizeCsvData(v: Value): (r: Value)
    ensures !v.Text? ==> r == v
    ensures v.Text? ==> r.Text? && !LooksLikeFormula(r.s)
    ensures v.Text? && !LooksLikeFormula(v.s) ==> r == v
    ensures v.Text? ==> r == Text(SanitizeCell(v.s))
  {
    match v
    case Text(s) => Text(SanitizeCell(s))
    case NonText(_) => v
  }

  /** Sanitising twice is sanitising once: the quote it adds is never itself a formula lead. */
  lemma SanitizeCellIdempotent(s: string)
    ensures SanitizeCell(SanitizeCell(s)) == SanitizeCell(s)
  {
  }

  /** After `trim`, a sanitised cell never begins with a formula character. */
  lemma SanitizedTrimSafe(s: string)
    ensures Trim(SanitizeCell(s)) == [] || !IsFormulaLead(Trim(SanitizeCell(s))[0])
  {
  }

  // ---------------------------------------------------------------------------
  // Token format checks (sanitizeGitHubToken)
  // ---------------------------------------------------------------------------

  predicate IsLowerHex(c: char) {
    ('0' <= c <= '9') || ('a' <= c <= 'f')
  }

  /** `/^[a-f0-9]{40}$/`: a classic token. */
  predicate IsClassicToken(t: string) {
    |t| == 40 && forall i :: 0 <= i < |t| ==> IsLowerHex(t[i])
  }

  /** `ghp_` followed by at least 32 more characters. */
  predicate IsPersonalToken(t: string) {
    StartsWith(t, "ghp_") && |t| >= 36
  }

  /** `github_pat_`, at least 82 characters in all. */
  predicate IsFineGrainedToken(t: string) {
    StartsWith(t, "github_pat_") && |t| >= 82
  }

  predicate HasTokenFormat(t: string) {
    IsPersonalToken(t) || IsClassicToken(t) || IsFineGrainedToken(t)
  }

  predicate HasForbiddenChar(t: string) {
    ' ' in t || '\n' in t || '\t' in t
  }

  /** Why `sanitizeGitHubToken` refused a token. */
  datatype TokenProblem = NotNonEmptyString | EmptyAfterTrim | InvalidFormat | InvalidCharacters

  datatype TokenCheck = TokenValid(sanitized: string) | TokenInvalid(problem: TokenProblem)

  function TokenProblemReason(p: TokenProblem): string {
    match p
    case NotNonEmptyString => "Token must be a non-empty string"
    case EmptyAfterTrim => "Token cannot be empty"
    case InvalidFormat =>
      "Invalid GitHub token format. Expected: ghp_* (personal), github_pat_* (fine-grained), or 40-char hex (classic)"
    case InvalidCharacters => "Token contains invalid characters"
  }

  /** `sanitizeGitHubToken`: the checks run in order empty, blank, format, characters. */
  function SanitizeGitHubToken(token: string): (r: TokenCheck)
    ensures r.TokenValid? ==> r.sanitized == Trim(token)
    ensures r.TokenValid? ==> ' ' !in r.sanitized && '\n' !in r.sanitized && '\t' !in r.sanitized
  {
    if token == [] then TokenInvalid(NotNonEmptyString)
    else
      var trimmed := Trim(token);
      if trimmed == [] then TokenInvalid(EmptyAfterTrim)
      else if !HasTokenFormat(trimmed) then TokenInvalid(InvalidFormat)
      else if HasForbiddenChar(trimmed) then TokenInvalid(InvalidCharacters)
      else TokenValid(trimmed)
  }

  /** Which refusal a token draws: the first failing check in the order empty, blank, format, characters. */
  lemma TokenProblemCases(token: string)
    ensures SanitizeGitHubToken(token).TokenValid? <==>
      !IsBlank(token) && HasTokenFormat(Trim(token)) && !HasForbiddenChar(Trim(token))
    ensures SanitizeGitHubToken(token) == TokenInvalid(NotNonEmptyString) <==> token == []
    ensures SanitizeGitHubToken(token) == TokenInvalid(EmptyAfterTrim) <==> token != [] && IsBlank(token)
    ensures SanitizeGitHubToken(token) == TokenInvalid(InvalidFormat) <==> !IsBlank(token) && !HasTokenFormat(Trim(token))
    ensures SanitizeGitHubToken(token) == TokenInvalid(InvalidCharacters) <==>
      !IsBlank(token) && HasTokenFormat(Trim(token)) && HasForbiddenChar(Trim(token))
  {
  }

  /** The format check comes before the character check: a token too short for any format
      that also holds a space (`"abc def"`, say) is reported as badly formatted. */
  lemma FormatCheckedBeforeCharacters(t: string)
    requires 0 < |t| < 36 && ' ' in t
    requires !IsWhitespace(t[0]) && !IsWhitespace(t[|t| - 1])
    ensures SanitizeGitHubToken(t) == TokenInvalid(InvalidFormat)
  {
    TrimOfTrimmed(t);
    assert !IsLowerHex(' ');
    assert !IsClassicToken(t);
  }

  /** A well-formed personal token with a space inside passes the format check and fails the character check. */
  lemma InnerSpaceRejected(t: string)
    requires IsPersonalToken(t) && t[4] == ' '
    requires !IsWhitespace(t[|t| - 1])
    ensures SanitizeGitHubToken(t) == TokenInvalid(InvalidCharacters)
  {
    assert t[0] == 'g';
    TrimOfTrimmed(t);
    assert ' ' in t;
  }

  // ---------------------------------------------------------------------------
  // Masking (maskSensitiveData, 'token' and 'email' branches)
  // ---------------------------------------------------------------------------

  datatype MaskKind = TokenMask | EmailMask

  /** The `'token'` branch: the length is kept; at most the first and last four characters show. */
  function MaskToken(data: string): (r: string)
    ensures data == [] ==> r == "[INVALID]"
    ensures data != [] ==> |r| == |data|
    ensures 0 < |data| <= 8 ==> forall i :: 0 <= i < |r| ==> r[i] == '*'
    ensures |data| > 8 ==> r[..4] == data[..4] && r[|r| - 4..] == data[|data| - 4..]
    ensures |data| > 8 ==> forall i :: 4 <= i < |r| - 4 ==> r[i] == '*'
  {
    if data == [] then "[INVALID]"
    else if |data| <= 8 then Stars(|data|)
    else
      var r := data[..4] + Stars(|data| - 8) + data[|data| - 4..];
      assert r[..4] == data[..4];
      assert r[|r| - 4..] == data[|data| - 4..];
      r
  }

  /** The `'email'` branch: the text must hold exactly one `@`; the domain and the `@` stay, the user
      name keeps its first two characters when it is longer than two, every other character is starred. */
  function MaskEmail(data: string): (r: string)
    ensures data == [] ==> r == "[INVALID]"
    ensures data != [] && multiset(data)['@'] != 1 ==> r == "[INVALID_EMAIL]"
  {
    if data == [] then "[INVALID]"
    else
      var parts := Split(data, {'@'});
      if |parts| != 2 then
        SplitRoundTrip(data, {'@'});
        SeparatorsCount(data, '@');
        "[INVALID_EMAIL]"
      else
        var username, domain := parts[0], parts[1];
        EmailShape(data);
        MaskUserName(username) + "@" + domain
  }

  /** The user name of an e-mail address, masked: the first two characters stay when it is longer than two. */
  function MaskUserName(username: string): (r: string)
    ensures |r| == |username|
    ensures forall i :: 0 <= i < |r| ==> r[i] == if i < 2 && |username| > 2 then username[i] else '*'
  {
    if |username| > 2 then username[..2] + Stars(|username| - 2) else Stars(|username|)
  }

  /** A text with exactly one `@` keeps its length, its `@` and domain; of the user name only the first
      two characters survive, and only when it is longer than two. */
  lemma MaskEmailValid(data: string)
    requires data != [] && multiset(data)['@'] == 1
    ensures var r := MaskEmail(data);
            var k := FirstDelimiter(data, {'@'});
      && |r| == |data|
      && r[k..] == data[k..]
      && (forall i :: 0 <= i < k ==> r[i] == if i < 2 && k > 2 then data[i] else '*')
  {
    var parts := Split(data, {'@'});
    var k := FirstDelimiter(data, {'@'});
    assert |parts| == 2 && parts[0] == data[..k] && data == parts[0] + "@" + parts[1] by {
      EmailShape(data);
    }
    var user, domain := parts[0], parts[1];
    var masked := MaskUserName(user);
    var r := MaskEmail(data);
    assert r == masked + "@" + domain;
    MaskedShape(data, user, domain, masked);
    forall i | 0 <= i < k ensures r[i] == if i < 2 && k > 2 then data[i] else '*' {
      assert r[i] == r[..k][i] == masked[i];
      assert data[i] == data[..k][i] == user[i];
    }
  }

  lemma MaskedShape(data: string, user: string, domain: string, masked: string)
    requires data == user + "@" + domain && |masked| == |user|
    ensures var r := masked + "@" + domain;
      |r| == |data| && r[|user|..] == data[|user|..] && r[..|user|] == masked && data[..|user|] == user
  {
    var r := masked + "@" + domain;
    assert r[|user|..] == "@" + domain;
    assert data[|user|..] == "@" + domain;
    assert r[..|user|] == masked;
    assert data[..|user|] == user;
  }

  /** With exactly one `@`, `split('@')` gives the text before it and the text after it. */
  lemma EmailShape(data: string)
    ensures var parts := Split(data, {'@'});
      |parts| == 2 <==> multiset(data)['@'] == 1
    ensures var parts := Split(data, {'@'});
      |parts| == 2 ==>
        && parts[0] == data[..FirstDelimiter(data, {'@'})]
        && data == parts[0] + "@" + parts[1]
  {
    var parts := Split(data, {'@'});
    SplitRoundTrip(data, {'@'});
    SeparatorsCount(data, '@');
    SplitFirstToken(data, {'@'});
    if |parts| == 2 {
      var seps := Separators(data, {'@'});
      assert seps[0] == '@';
      assert Interleave(parts, seps) == parts[0] + [seps[0]] + Interleave(parts[1..], seps[1..]);
    }
  }

  /** `maskSensitiveData(data, type)` for the two kinds modelled; the default kind is `'token'`. */
  function MaskSensitiveData(data: string, kind: MaskKind): (r: string)
    ensures data == [] ==> r == "[INVALID]"
    ensures kind == TokenMask && data != [] ==> |r| == |data|
    ensures kind == TokenMask ==> r == MaskToken(data)
    ensures kind == EmailMask ==> r == MaskEmail(data)
  {
    match kind
    case TokenMask => MaskToken(data)
    case EmailMask => MaskEmail(data)
  }

  // ---------------------------------------------------------------------------
  // logSecurityEvent: masking of the details record
  // ---------------------------------------------------------------------------

  /** A key under which `logSecurityEvent` masks string values. */
  predicate IsSensitiveKey(key: string) {
    Contains(key, "token") || Contains(key, "password")
  }

  /** The details record as logged: string values under sensitive keys are token-masked, every
      other entry is kept; a missing record logs as `{}`. */
  function MaskDetails(details: Option<map<string, Value>>): (r: map<string, Value>)
    ensures details.None? ==> r == map[]
    ensures details.Some? ==> r.Keys == details.value.Keys
    ensures details.Some? ==> forall k :: k in r && !(IsSensitiveKey(k) && details.value[k].Text?) ==>
      r[k] == details.value[k]
    ensures details.Some? ==> forall k :: k in r && IsSensitiveKey(k) && details.value[k].Text? ==>
      r[k] == Text(MaskToken(details.value[k].s))
  {
    match details
    case None => map[]
    case Some(d) =>
      map k | k in d :: if d[k].Text? && IsSensitiveKey(k) then Text(MaskSensitiveData(d[k].s, TokenMask)) else d[k]
  }

  /** A logged secret of more than eight characters never shows its middle part. */
  lemma LoggedSecretHidden(details: map<string, Value>, key: string, i: nat)
    requires key in details && IsSensitiveKey(key) && details[key].Text?
    requires 4 <= i < |details[key].s| - 4
    ensures MaskDetails(Some(details))[key].s[i] == '*'
    ensures |MaskDetails(Some(details))[key].s| == |details[key].s|
  {
  }

  // ---------------------------------------------------------------------------
  // validateNetworkRequest, over an already parsed URL
  // ---------------------------------------------------------------------------

  /** The protocol and host name the WHATWG `URL` parser reports. */
  datatype ParsedUrl = ParsedUrl(protocol: string, hostname: string)

  datatype NetworkCheck = Allowed | HttpsOnly | DomainNotAllowed(hostname: string) | InvalidUrl

  const RequestDomains: seq<string> := ["api.github.com", "github.com", "localhost"]

  /** `validateNetworkRequest`; `None` stands for a URL that does not parse. */
  function ValidateNetworkRequest(url: Option<ParsedUrl>): (r: NetworkCheck)
    ensures url.None? <==> r == InvalidUrl
    ensures r == Allowed <==> url.Some? && url.value.hostname in RequestDomains
                              && (url.value.protocol == "https:" || url.value.hostname == "localhost")
  {
    match url
    case None => InvalidUrl
    case Some(u) =>
      if u.protocol != "https:" && u.hostname != "localhost" then HttpsOnly
      else if u.hostname !in RequestDomains then DomainNotAllowed(u.hostname)
      else Allowed
  }

  // ---------------------------------------------------------------------------
  // performSecurityAudit: the returned record
  // ---------------------------------------------------------------------------

  datatype FileSystemAccess = FileSystemAccess(readOnlyFiles: seq<string>, noWriteOperations: bool, noDeleteOperations: bool)
  datatype NetworkAccess = NetworkAccess(allowedDomains: seq<string>, httpsOnly: bool)
  datatype DataHandling = DataHandling(tokenMasked: bool, noTokenLogging: bool, inputSanitized: bool)
  datatype SecurityAudit = SecurityAudit(fileSystemAccess: FileSystemAccess, networkAccess: NetworkAccess, dataHandling: DataHandling)

  /** The audit record: the CSV file, when one is named, is the only file read; every flag is set.
      The token and the verbose flag only affect console output. */
  function PerformSecurityAudit(csvFile: Option<string>, token: Option<string>, verbose: bool): (a: SecurityAudit)
    ensures a.fileSystemAccess.readOnlyFiles == if csvFile.Some? && csvFile.value != [] then [csvFile.value] else []
    ensures a.fileSystemAccess.noWriteOperations && a.fileSystemAccess.noDeleteOperations
    ensures a.networkAccess.httpsOnly && a.networkAccess.allowedDomains == ["api.github.com", "github.com"]
    ensures a.dataHandling.tokenMasked && a.dataHandling.noTokenLogging && a.dataHandling.inputSanitized
  {
    var files: seq<string> := [];
    var files := if csvFile.Some? && csvFile.value != [] then files + [csvFile.value] else files;
    SecurityAudit(
      FileSystemAccess(files, true, true),
      NetworkAccess(["api.github.com", "github.com"], true),
      DataHandling(true, true, true))
  }

  /** Every domain the audit declares is one that `validateNetworkRequest` lets through over https. */
  lemma AuditDomainsAllowed(csvFile: Option<string>, token: Option<string>, verbose: bool, i: nat)
    requires i < |PerformSecurityAudit(csvFile, token, verbose).networkAccess.allowedDomains|
    ensures ValidateNetworkRequest(Some(ParsedUrl("https:",
              PerformSecurityAudit(csvFile, token, verbose).networkAccess.allowedDomains[i]))) == Allowed
  {
  }
}
