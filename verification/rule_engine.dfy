// The WAF rule engine of rules/engine.go and its keyword pre-filter.
module RuleEngines {
  import opened Text

  // ---- Regular expressions ----------------------------------------------

  // The regexp package: which patterns compile, and what "(?i)" + pattern
  // matches somewhere in a value.
  datatype RegexLib = RegexLib(compiles: string -> bool, matches: (string, string) -> bool)

  const META: set<char> := {'\\', '|', '[', ']', '(', ')', '?', '*', '+', '^', '$', '{', '}'}

  // Only literals and '.'.
  predicate Plain(pattern: string) {
    forall c :: c in pattern ==> c !in META
  }

  predicate MatchesChar(p: char, c: char) {
    if p == '.' then c != '\n' else Lower(p) == Lower(c)
  }

  predicate PlainMatchAt(pattern: string, value: string, i: nat) {
    i + |pattern| <= |value| && forall j :: 0 <= j < |pattern| ==> MatchesChar(pattern[j], value[i + j])
  }

  predicate PlainMatch(pattern: string, value: string) {
    exists i: nat | i <= |value| :: PlainMatchAt(pattern, value, i)
  }

  predicate Ascii(s: string) {
    forall c :: c in s ==> c < 128 as char
  }

  // What is known of the package: patterns of literals and '.', on ASCII text.
  ghost predicate Faithful(lib: RegexLib) {
    forall p, v :: Plain(p) && Ascii(p) && Ascii(v) ==>
      lib.compiles(p) && (lib.matches(p, v) <==> PlainMatch(p, v))
  }

  // ---- The keyword ------------------------------------------------------

  predicate KeywordChar(c: char) {
    'a' <= c <= 'z' || '0' <= c <= '9' || c == '_' || c == '-'
  }

  const DISJUNCTIVE: set<char> := {'|', '[', ']', '(', ')', '?', '*', '+', '^', '$'}

  const MIN_KEYWORD: nat := 4

  datatype Scan = Scan(current: string, longest: string)

  function Longer(s: Scan): string {
    if |s.current| > |s.longest| then s.current else s.longest
  }

  function ScanChar(s: Scan, c: char): Scan {
    if KeywordChar(c) then s.(current := s.current + [c]) else Scan("", Longer(s))
  }

  function Scanned(pat: string): Scan {
    if pat == "" then Scan("", "") else ScanChar(Scanned(pat[..|pat| - 1]), pat[|pat| - 1])
  }

  function RequiredKeyword(pat: string): string {
    if exists c :: c in pat && c in DISJUNCTIVE then ""
    else if |Longer(Scanned(pat))| >= MIN_KEYWORD then Longer(Scanned(pat))
    else ""
  }

  predicate IsRun(pat: string, i: nat, j: nat) {
    i <= j <= |pat| && forall k :: i <= k < j ==> LetterDigitOrDash(pat[k])
  }

  // Lower-case letters, digits, underscore and hyphen, by their ASCII codes.
  predicate LetterDigitOrDash(c: char) {
    97 <= c as int <= 122 || 48 <= c as int <= 57 || c as int == 95 || c as int == 45
  }

  predicate RunAt(pat: string, i: nat, word: string) {
    At(pat, i, word) && IsRun(pat, i, i + |word|)
  }

  // The scan's current word is the longest run at the end of the text.
  lemma {:induction false} CurrentRun(pat: string)
    ensures var w := Scanned(pat).current; |w| <= |pat| && RunAt(pat, |pat| - |w|, w)
    ensures forall i: nat :: IsRun(pat, i, |pat|) ==> |pat| - i <= |Scanned(pat).current|
  {
    if pat != "" {
      var m := |pat| - 1;
      CurrentRun(pat[..m]);
      forall i: nat | IsRun(pat, i, |pat|)
        ensures |pat| - i <= |Scanned(pat).current|
      {
        if i < |pat| {
          assert KeywordChar(pat[m]);
          assert IsRun(pat[..m], i, m);
        }
      }
    }
  }

  lemma {:induction false} LongestRun(pat: string)
    ensures exists i: nat :: RunAt(pat, i, Longer(Scanned(pat)))
    ensures exists i: nat :: RunAt(pat, i, Scanned(pat).longest)
  {
    CurrentRun(pat);
    var s := Scanned(pat);
    if pat == "" {
      assert RunAt(pat, 0, s.longest) && Longer(s) == s.longest;
    } else {
      var m := |pat| - 1;
      LongestRun(pat[..m]);
      var before := Scanned(pat[..m]);
      var i: nat :| RunAt(pat[..m], i, Longer(before));
      if KeywordChar(pat[m]) {
        var k: nat :| RunAt(pat[..m], k, before.longest);
        RunStays(pat, m, k, before.longest);
        assert RunAt(pat, if |s.current| > |s.longest| then |pat| - |s.current| else k, Longer(s));
      } else {
        RunStays(pat, m, i, Longer(before));
        assert RunAt(pat, i, Longer(s));
      }
    }
  }

  lemma RunStays(pat: string, m: nat, i: nat, word: string)
    ensures m <= |pat| && RunAt(pat[..m], i, word) ==> RunAt(pat, i, word)
  {}

  lemma {:induction false} RunsBounded(pat: string, i: nat, j: nat)
    requires IsRun(pat, i, j)
    ensures j - i <= |Longer(Scanned(pat))|
  {
    CurrentRun(pat);
    if pat != "" && j < |pat| {
      assert IsRun(pat[..|pat| - 1], i, j);
      RunsBounded(pat[..|pat| - 1], i, j);
    }
  }

  // MAIN RESULT. The keyword is a longest run of keyword characters of the
  // pattern, given up on when it is too short or the pattern has choices.
  lemma KeywordIsLongestRun(pat: string)
    ensures var kw := RequiredKeyword(pat);
      kw != "" ==>
        && |kw| >= MIN_KEYWORD
        && (exists i: nat :: RunAt(pat, i, kw))
        && (forall i: nat, j: nat :: IsRun(pat, i, j) ==> j - i <= |kw|)
  {
    LongestRun(pat);
    forall i: nat, j: nat | IsRun(pat, i, j) ensures j - i <= |Longer(Scanned(pat))| {
      RunsBounded(pat, i, j);
    }
  }

  // MAIN RESULT. Whatever a pattern of literals and '.' matches contains its
  // keyword, in lower case.
  lemma MatchContainsKeyword(pattern: string, value: string)
    requires Plain(pattern) && PlainMatch(pattern, value)
    ensures Contains(ToLower(value), RequiredKeyword(ToLower(pattern)))
  {
    var kw := RequiredKeyword(ToLower(pattern));
    if kw == "" {
      assert At(ToLower(value), 0, kw);
    } else {
      KeywordIsLongestRun(ToLower(pattern));
      var a: nat :| RunAt(ToLower(pattern), a, kw);
      var i: nat :| i <= |value| && PlainMatchAt(pattern, value, i);
      forall j | 0 <= j < |kw| ensures ToLower(value)[i + a + j] == kw[j] {
        KeywordCharMatched(pattern, value, kw, a, i, j);
      }
      hide PlainMatchAt, RunAt, RequiredKeyword, Plain;
      assert ToLower(value)[i + a..i + a + |kw|] == kw;
      assert At(ToLower(value), i + a, kw);
    }
  }

  lemma KeywordCharMatched(pattern: string, value: string, kw: string, a: nat, i: nat, j: nat)
    ensures RunAt(ToLower(pattern), a, kw) && PlainMatchAt(pattern, value, i) && j < |kw| ==>
      i + a + |kw| <= |value| && ToLower(value)[i + a + j] == kw[j]
  {}

  // Outside that language a keyword may be no such thing: a backslash's
  // letter is taken for a literal, so the digit class in \drop yields "drop".
  lemma EscapeTakenForLiteral(word: string)
    requires |word| >= MIN_KEYWORD && forall c :: c in word ==> KeywordChar(c)
    ensures RequiredKeyword("\\" + word) == word
  {
    ScanAfterBackslash(word);
    hide Scanned;
    forall c | c in "\\" + word ensures c !in DISJUNCTIVE {
      assert c == '\\' || c in word;
    }
  }

  lemma {:induction false} ScanAfterBackslash(word: string)
    requires forall c :: c in word ==> KeywordChar(c)
    ensures Scanned("\\" + word) == Scan(word, "")
  {
    var p := "\\" + word;
    var m := |p| - 1;
    if word == "" {
      assert p[..m] == "";
    } else {
      assert p[..m] == "\\" + word[..m - 1];
      ScanAfterBackslash(word[..m - 1]);
      assert word[m - 1] in word;
      assert word[..m - 1] + [word[m - 1]] == word;
    }
  }

  // ---- Rules and requests -----------------------------------------------

  datatype Rule = Rule(
    id: string, severity: string, targets: seq<string>, operator: string, pattern: string, patternLower: string,
    requiredKeyword: string, compiled: bool, action: string, enabled: bool, paranoia: int)

  datatype Header = Header(name: string, value: string)

  // headers in the (arbitrary but fixed) order the header map is walked in.
  datatype Request = Request(
    path: string, query: string, method_: string, url: string, headers: seq<Header>)

  function HeaderGet(headers: seq<Header>, name: string): string {
    if headers == [] then ""
    else if headers[0].name == name then headers[0].value
    else HeaderGet(headers[1..], name)
  }

  datatype Match = Match(rule: Rule, value: string, target: string)

  datatype MatchOption = NoMatch | Found(match_: Match)

  datatype Result = Result(blocked: bool, matches: seq<Match>, score: int, action: string, topRule: string)

  const CLEAN := Result(false, [], 0, "", "")

  function SeverityScore(severity: string): int {
    if severity == "critical" then 25
    else if severity == "high" then 15
    else if severity == "medium" then 10
    else if severity == "low" then 5
    else 1
  }

  function Truncate(s: string, maxLen: nat): string {
    if |s| <= maxLen then s else s[..maxLen] + "..."
  }

  // url.QueryUnescape, as far as it is known here.
  datatype Unescaped = BadEscape | Decoded(value: string)

  datatype Env = Env(regex: RegexLib, unescape: string -> Unescaped)

  // ---- Matching as functions --------------------------------------------

  function LowerPattern(rule: Rule): string {
    if rule.patternLower == "" then ToLower(rule.pattern) else rule.patternLower
  }

  // `filter` turns the keyword checks on, as in the source, or off.
  predicate Operates(env: Env, rule: Rule, value: string, filter: bool) {
    if rule.operator == "rx" then
      && rule.compiled
      && (filter && rule.requiredKeyword != "" ==> Contains(ToLower(value), rule.requiredKeyword))
      && env.regex.matches(rule.pattern, value)
    else if rule.operator == "!rx" then rule.compiled && !env.regex.matches(rule.pattern, value)
    else if rule.operator == "contains" then Contains(ToLower(value), LowerPattern(rule))
    else if rule.operator == "eq" then EqualFold(value, rule.pattern)
    else if rule.operator == "beginsWith" then HasPrefix(ToLower(value), LowerPattern(rule))
    else if rule.operator == "endsWith" then HasSuffix(ToLower(value), LowerPattern(rule))
    else false
  }

  // The argument values of a query, in order.
  function QueryArgs(env: Env, query: string): seq<string>
    decreases |query|
  {
    if query == "" then []
    else
      var i := Cut(query, {'&', ';'});
      var rest := if i < |query| then query[i + 1..] else "";
      (if i == 0 then [] else [ArgValue(env, query[..i])]) + QueryArgs(env, rest)
  }

  function RawArg(part: string): string {
    var e := Cut(part, {'='});
    if e < |part| then part[e + 1..] else part
  }

  function ArgValue(env: Env, part: string): string {
    var val := RawArg(part);
    if '%' in val && env.unescape(val).Decoded? then env.unescape(val).value else val
  }

  function CookieValues(cookie: string): seq<string>
    decreases |cookie|
  {
    if cookie == "" then []
    else
      var i := Cut(cookie, {';'});
      var rest := if i < |cookie| then cookie[i + 1..] else "";
      var part := TrimSpace(cookie[..i]);
      (if part == "" then [] else [CookieValue(part)]) + CookieValues(rest)
  }

  function CookieValue(part: string): string {
    var val := RawArg(part);
    if |val| > 1 && val[0] == '"' && val[|val| - 1] == '"' then val[1..|val| - 1] else val
  }

  function HeaderValues(headers: seq<Header>): seq<string> {
    if headers == [] then [] else [headers[0].value] + HeaderValues(headers[1..])
  }

  // The values a target offers for matching.
  function Values(env: Env, req: Request, target: string): seq<string> {
    if target == "URL" then [req.url]
    else if target == "PATH" then [req.path]
    else if target == "QUERY" then [req.query]
    else if target == "METHOD" then [req.method_]
    else if target == "UA" then [HeaderGet(req.headers, "User-Agent")]
    else if target == "HEADERS" then HeaderValues(req.headers)
    else if target == "ARGS" then QueryArgs(env, req.query)
    else if target == "COOKIES" then CookieValues(HeaderGet(req.headers, "Cookie"))
    else []
  }

  // The first of the values that matches.
  function FirstValue(env: Env, rule: Rule, values: seq<string>, target: string, filter: bool): MatchOption {
    if values == [] then NoMatch
    else if Operates(env, rule, values[0], filter) then Found(Match(rule, Truncate(values[0], 100), target))
    else FirstValue(env, rule, values[1..], target, filter)
  }

  function FirstTarget(env: Env, rule: Rule, targets: seq<string>, req: Request, filter: bool): MatchOption {
    if targets == [] then NoMatch
    else
      var m := FirstValue(env, rule, Values(env, req, targets[0]), targets[0], filter);
      if m.Found? then m else FirstTarget(env, rule, targets[1..], req, filter)
  }

  function JoinHeaders(values: seq<string>): string {
    if values == [] then "" else ToLower(values[0]) + "|" + JoinHeaders(values[1..])
  }

  function Payload(req: Request): string {
    ToLower(req.path) + ("|" + (ToLower(req.query) + ("|" + (ToLower(req.method_) + ("|"
    + (JoinHeaders(HeaderValues(req.headers)) + ToLower(HeaderGet(req.headers, "Cookie"))))))))
  }

  function RuleMatch(env: Env, level: int, rule: Rule, req: Request, filter: bool): MatchOption {
    if !rule.enabled || rule.paranoia > level then NoMatch
    else if filter && rule.requiredKeyword != "" && !Contains(Payload(req), rule.requiredKeyword) then NoMatch
    else FirstTarget(env, rule, rule.targets, req, filter)
  }

  function AddMatch(r: Result, m: MatchOption): Result {
    if m.NoMatch? then r
    else
      var rule := m.match_.rule;
      var r' := r.(matches := r.matches + [m.match_], score := r.score + SeverityScore(rule.severity));
      if rule.action == "block" || rule.action == "drop" then
        r'.(blocked := true, action := rule.action, topRule := rule.id)
      else r'
  }

  function MatchAll(env: Env, level: int, rules: seq<Rule>, req: Request, filter: bool): Result {
    if rules == [] then CLEAN
    else
      var m := |rules| - 1;
      AddMatch(MatchAll(env, level, rules[..m], req, filter), RuleMatch(env, level, rules[m], req, filter))
  }

  predicate StaticAsset(path: string) {
    HasPrefix(path, "/_next/static/") || HasSuffix(path, ".png") || HasSuffix(path, ".jpg") ||
    HasSuffix(path, ".css") || HasSuffix(path, ".js") || HasSuffix(path, ".woff2") || HasSuffix(path, ".svg")
  }

  function Inspection(env: Env, level: int, rules: seq<Rule>, req: Request, filter: bool): Result {
    if StaticAsset(req.path) then CLEAN else MatchAll(env, level, rules, req, filter)
  }

  // ---- What a rule matches -------------------------------------------------

  // The rule's operator accepts the v-th value that its t-th target offers.
  ghost predicate AcceptedAt(env: Env, rule: Rule, req: Request, filter: bool, t: nat, v: nat) {
    && t < |rule.targets|
    && v < |Values(env, req, rule.targets[t])|
    && Operates(env, rule, Values(env, req, rule.targets[t])[v], filter)
  }

  // ... and none that comes before it.
  ghost predicate FirstAccepted(env: Env, rule: Rule, req: Request, filter: bool, t: nat, v: nat) {
    && AcceptedAt(env, rule, req, filter, t, v)
    && forall t': nat, v': nat :: AcceptedAt(env, rule, req, filter, t', v') ==> t < t' || (t == t' && v <= v')
  }

  // A value of more than a hundred characters is cut short.
  predicate Shows(v: string, shown: string) {
    if |v| <= 100 then shown == v else |shown| == 103 && shown[..100] == v[..100] && shown[100..] == "..."
  }

  ghost predicate ShowsFirst(env: Env, rule: Rule, req: Request, filter: bool, m: Match) {
    exists t: nat, v: nat :: FirstAccepted(env, rule, req, filter, t, v) &&
      m.rule == rule && m.target == rule.targets[t] && Shows(Values(env, req, rule.targets[t])[v], m.value)
  }

  lemma {:induction false} FirstValueIs(env: Env, rule: Rule, values: seq<string>, target: string, filter: bool)
    ensures var m := FirstValue(env, rule, values, target, filter);
      if m.NoMatch? then forall k :: 0 <= k < |values| ==> !Operates(env, rule, values[k], filter)
      else exists k ::
             && 0 <= k < |values|
             && Operates(env, rule, values[k], filter)
             && m.match_ == Match(rule, Truncate(values[k], 100), target)
             && forall j :: 0 <= j < k ==> !Operates(env, rule, values[j], filter)
  {
    hide Operates;
    if values != [] && !Operates(env, rule, values[0], filter) {
      FirstValueIs(env, rule, values[1..], target, filter);
      var m := FirstValue(env, rule, values[1..], target, filter);
      if m.NoMatch? {
        forall k | 0 <= k < |values| ensures !Operates(env, rule, values[k], filter) {
          assert k > 0 ==> values[k] == values[1..][k - 1];
        }
      } else {
        var k :| 0 <= k < |values[1..]| && Operates(env, rule, values[1..][k], filter) &&
          m.match_ == Match(rule, Truncate(values[1..][k], 100), target) &&
          forall j :: 0 <= j < k ==> !Operates(env, rule, values[1..][j], filter);
        assert values[k + 1] == values[1..][k];
        forall j | 0 <= j < k + 1 ensures !Operates(env, rule, values[j], filter) {
          assert j > 0 ==> values[j] == values[1..][j - 1];
        }
      }
    }
  }

  lemma TruncateShows(v: string)
    ensures Shows(v, Truncate(v, 100))
  {}

  // The search from the k-th target on, none before it having matched.
  lemma {:induction false} FirstTargetFrom(env: Env, rule: Rule, k: nat, req: Request, filter: bool)
    requires k <= |rule.targets|
    requires forall t: nat, v: nat :: AcceptedAt(env, rule, req, filter, t, v) ==> k <= t
    ensures var m := FirstTarget(env, rule, rule.targets[k..], req, filter);
      if m.NoMatch? then forall t: nat, v: nat :: !AcceptedAt(env, rule, req, filter, t, v)
      else ShowsFirst(env, rule, req, filter, m.match_)
    decreases |rule.targets| - k
  {
    hide Operates, FirstValue, Values, Truncate;
    if k < |rule.targets| {
      var target := rule.targets[k];
      var values := Values(env, req, target);
      FirstValueIs(env, rule, values, target, filter);
      assert rule.targets[k..][0] == target && rule.targets[k..][1..] == rule.targets[k + 1..];
      var m := FirstValue(env, rule, values, target, filter);
      if m.NoMatch? {
        forall t: nat, v: nat | AcceptedAt(env, rule, req, filter, t, v) ensures k + 1 <= t {
          assert t != k;
        }
        FirstTargetFrom(env, rule, k + 1, req, filter);
      } else {
        var v :| 0 <= v < |values| && Operates(env, rule, values[v], filter) &&
          m.match_ == Match(rule, Truncate(values[v], 100), target) &&
          forall j :: 0 <= j < v ==> !Operates(env, rule, values[j], filter);
        assert FirstAccepted(env, rule, req, filter, k, v);
        TruncateShows(values[v]);
      }
    }
  }

  lemma FirstTargetIs(env: Env, rule: Rule, req: Request, filter: bool)
    ensures var m := FirstTarget(env, rule, rule.targets, req, filter);
      && (m.Found? <==> exists t: nat, v: nat :: AcceptedAt(env, rule, req, filter, t, v))
      && (m.Found? ==> ShowsFirst(env, rule, req, filter, m.match_))
  {
    hide FirstTarget, AcceptedAt;
    FirstTargetFrom(env, rule, 0, req, filter);
    assert rule.targets[0..] == rule.targets;
  }

  // ---- The engine -------------------------------------------------------

  method ExtractRequiredKeyword(pat: string) returns (kw: string)
    ensures kw == RequiredKeyword(pat)
  {
    if exists c :: c in pat && c in DISJUNCTIVE {
      return "";
    }
    var current, longest := "", "";
    for i := 0 to |pat|
      invariant Scanned(pat[..i]) == Scan(current, longest)
    {
      assert pat[..i + 1][..i] == pat[..i];
      var ch := pat[i];
      if KeywordChar(ch) {
        current := current + [ch];
      } else {
        if |current| > |longest| {
          longest := current;
        }
        current := "";
      }
    }
    assert pat[..|pat|] == pat;
    if |current| > |longest| {
      longest := current;
    }
    if |longest| >= MIN_KEYWORD {
      return longest;
    }
    return "";
  }

  lemma ArgStep(env: Env, query: string)
    ensures query == "" ==> QueryArgs(env, query) == []
    ensures query != "" ==>
      var i := Cut(query, {'&', ';'});
      var rest := if i < |query| then query[i + 1..] else "";
      QueryArgs(env, query) == (if i == 0 then [] else [ArgValue(env, query[..i])]) + QueryArgs(env, rest)
  {
    hide ArgValue, Cut;
  }

  lemma NoCookies()
    ensures CookieValues("") == []
  {}

  lemma CookieStep(cookie: string)
    ensures cookie == "" ==> CookieValues(cookie) == []
    ensures cookie != "" ==>
      var i := Cut(cookie, {';'});
      var rest := if i < |cookie| then cookie[i + 1..] else "";
      var part := TrimSpace(cookie[..i]);
      CookieValues(cookie) == (if part == "" then [] else [CookieValue(part)]) + CookieValues(rest)
  {
    hide CookieValue, TrimSpace, Cut;
  }

  lemma FirstOfMore(env: Env, rule: Rule, value: string, rest: seq<string>, target: string)
    ensures FirstValue(env, rule, [value] + rest, target, true) ==
      if Operates(env, rule, value, true) then Found(Match(rule, Truncate(value, 100), target))
      else FirstValue(env, rule, rest, target, true)
  {
    assert ([value] + rest)[1..] == rest;
  }

  lemma NoValues(env: Env, rule: Rule, target: string)
    ensures FirstValue(env, rule, [], target, true) == NoMatch
  {}

  class Engine {
    const env: Env
    var enabled: bool
    var paranoiaLevel: int
    var rules: seq<Rule>
    var totalInspected: nat
    var totalBlocked: nat
    var totalMatched: nat

    constructor (env: Env, enabled: bool, paranoiaLevel: int)
      ensures this.env == env && this.enabled == enabled && this.paranoiaLevel == paranoiaLevel && rules == []
      ensures totalInspected == totalBlocked == totalMatched == 0
    {
      this.env, this.enabled, this.paranoiaLevel, rules := env, enabled, paranoiaLevel, [];
      totalInspected, totalBlocked, totalMatched := 0, 0, 0;
    }

    method SetParanoiaLevel(level: int)
      modifies this`paranoiaLevel
      ensures 1 <= paranoiaLevel <= 4
      ensures 1 <= level <= 4 ==> paranoiaLevel == level
      ensures level < 1 ==> paranoiaLevel == 1
      ensures level > 4 ==> paranoiaLevel == 4
    {
      paranoiaLevel := level;
      if paranoiaLevel < 1 {
        paranoiaLevel := 1;
      }
      if paranoiaLevel > 4 {
        paranoiaLevel := 4;
      }
    }

    method AddRule(rule: Rule) returns (ok: bool)
      modifies this`rules
      ensures var regexRule := (rule.operator == "rx" || rule.operator == "!rx") && rule.pattern != "";
        && ok == (!regexRule || env.regex.compiles(rule.pattern))
        && (!ok ==> rules == old(rules))
        && (ok && !regexRule ==> rules == old(rules) + [rule.(patternLower := ToLower(rule.pattern))])
        && (ok && regexRule ==> rules == old(rules) + [rule.(
              patternLower := ToLower(rule.pattern), compiled := true,
              requiredKeyword := RequiredKeyword(ToLower(rule.pattern)))])
    {
      var added := rule.(patternLower := ToLower(rule.pattern));
      if (rule.operator == "rx" || rule.operator == "!rx") && rule.pattern != "" {
        if !env.regex.compiles(rule.pattern) {
          return false;
        }
        var kw := ExtractRequiredKeyword(added.patternLower);
        added := added.(compiled := true, requiredKeyword := kw);
      }
      rules := rules + [added];
      return true;
    }

    // forEachQueryArg with the matching callback.
    method MatchArgs(rule: Rule, query0: string) returns (r: MatchOption)
      ensures r == FirstValue(env, rule, QueryArgs(env, query0), "ARGS", true)
    {
      hide Operates, ArgValue, FirstValue, QueryArgs;
      var query := query0;
      while query != ""
        invariant FirstValue(env, rule, QueryArgs(env, query0), "ARGS", true)
                  == FirstValue(env, rule, QueryArgs(env, query), "ARGS", true)
        decreases |query|
      {
        var i := Cut(query, {'&', ';'});
        var part := query[..i];
        ArgStep(env, query);
        query := if i < |query| then query[i + 1..] else "";
        if part == "" {
          assert [] + QueryArgs(env, query) == QueryArgs(env, query);
          continue;
        }
        var val := ArgValue(env, part);
        FirstOfMore(env, rule, val, QueryArgs(env, query), "ARGS");
        if Operates(env, rule, val, true) {
          return Found(Match(rule, Truncate(val, 100), "ARGS"));
        }
      }
      ArgStep(env, query);
      NoValues(env, rule, "ARGS");
      return NoMatch;
    }

    // forEachCookieValue with the matching callback.
    method MatchCookies(rule: Rule, cookie0: string) returns (r: MatchOption)
      ensures r == FirstValue(env, rule, CookieValues(cookie0), "COOKIES", true)
    {
      hide Operates, CookieValue, TrimSpace, FirstValue, CookieValues;
      var cookie := cookie0;
      while cookie != ""
        invariant FirstValue(env, rule, CookieValues(cookie0), "COOKIES", true)
                  == FirstValue(env, rule, CookieValues(cookie), "COOKIES", true)
        decreases |cookie|
      {
        var i := Cut(cookie, {';'});
        var part := TrimSpace(cookie[..i]);
        CookieStep(cookie);
        cookie := if i < |cookie| then cookie[i + 1..] else "";
        if part == "" {
          assert [] + CookieValues(cookie) == CookieValues(cookie);
          continue;
        }
        var val := CookieValue(part);
        FirstOfMore(env, rule, val, CookieValues(cookie), "COOKIES");
        if Operates(env, rule, val, true) {
          return Found(Match(rule, Truncate(val, 100), "COOKIES"));
        }
      }
      CookieStep(cookie);
      NoValues(env, rule, "COOKIES");
      return NoMatch;
    }

    method MatchValues(rule: Rule, values: seq<string>, target: string) returns (r: MatchOption)
      ensures r == FirstValue(env, rule, values, target, true)
    {
      hide Operates;
      for k := 0 to |values|
        invariant FirstValue(env, rule, values, target, true) == FirstValue(env, rule, values[k..], target, true)
      {
        if Operates(env, rule, values[k], true) {
          return Found(Match(rule, Truncate(values[k], 100), target));
        }
      }
      return NoMatch;
    }

    method MatchRule(rule: Rule, req: Request) returns (r: MatchOption)
      ensures r == FirstTarget(env, rule, rule.targets, req, true)
    {
      hide FirstValue;
      for k := 0 to |rule.targets|
        invariant FirstTarget(env, rule, rule.targets, req, true)
                  == FirstTarget(env, rule, rule.targets[k..], req, true)
      {
        var target := rule.targets[k];
        var m: MatchOption;
        if target == "ARGS" {
          m := MatchArgs(rule, req.query);
        } else if target == "COOKIES" {
          m := MatchCookies(rule, HeaderGet(req.headers, "Cookie"));
        } else {
          m := MatchValues(rule, Values(env, req, target), target);
        }
        if m.Found? {
          return m;
        }
      }
      return NoMatch;
    }

    method Inspect(req: Request) returns (result: Result)
      modifies this`totalInspected, this`totalBlocked, this`totalMatched
      ensures result == if !enabled then CLEAN else Inspection(env, paranoiaLevel, rules, req, true)
      ensures totalInspected == old(totalInspected) + (if enabled then 1 else 0)
      ensures totalBlocked == old(totalBlocked) + (if result.blocked then 1 else 0)
      ensures totalMatched == old(totalMatched) + |result.matches|
    {
      hide Payload, FirstTarget;
      if !enabled {
        return CLEAN;
      }
      result := CLEAN;
      totalInspected := totalInspected + 1;
      if StaticAsset(req.path) {
        return;
      }
      var fullPayload := Payload(req);
      for k := 0 to |rules|
        invariant result == MatchAll(env, paranoiaLevel, rules[..k], req, true)
        invariant totalInspected == old(totalInspected) + 1 && totalBlocked == old(totalBlocked)
        invariant totalMatched == old(totalMatched) + |result.matches|
      {
        var rule := rules[k];
        assert rules[..k + 1][..k] == rules[..k];
        if !rule.enabled || rule.paranoia > paranoiaLevel {
          continue;
        }
        if rule.requiredKeyword != "" && !Contains(fullPayload, rule.requiredKeyword) {
          continue;
        }
        var m := MatchRule(rule, req);
        if m.Found? {
          result := result.(matches := result.matches + [m.match_],
                            score := result.score + SeverityScore(m.match_.rule.severity));
          totalMatched := totalMatched + 1;
          if m.match_.rule.action == "block" || m.match_.rule.action == "drop" {
            result := result.(blocked := true, action := m.match_.rule.action, topRule := m.match_.rule.id);
          }
        }
      }
      assert rules[..|rules|] == rules;
      if result.blocked {
        totalBlocked := totalBlocked + 1;
      }
    }
  }
}
