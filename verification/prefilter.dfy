// When the keyword pre-filter of rules/engine.go changes what an inspection finds, and when it
// does not.
module Prefilters {
  import opened RuleEngines
  import opened Text

  // What AddRule leaves behind.
  predicate Prepared(rule: Rule) {
    && rule.patternLower == ToLower(rule.pattern)
    && rule.requiredKeyword ==
       if rule.compiled && (rule.operator == "rx" || rule.operator == "!rx") then RequiredKeyword(rule.patternLower)
       else ""
  }

  // A rule that comes without a keyword of its own leaves AddRule prepared.
  lemma AddedRuleIsPrepared(rule: Rule)
    requires !rule.compiled && rule.requiredKeyword == ""
    ensures Prepared(rule.(patternLower := ToLower(rule.pattern)))
    ensures rule.operator == "rx" || rule.operator == "!rx" ==>
      Prepared(rule.(patternLower := ToLower(rule.pattern), compiled := true,
                     requiredKeyword := RequiredKeyword(ToLower(rule.pattern))))
  {}

  // ---- What a request offers --------------------------------------------

  const TARGETS: set<string> := {"URL", "PATH", "QUERY", "METHOD", "UA", "HEADERS", "ARGS", "COOKIES"}

  predicate Offers(env: Env, req: Request, v: string) {
    exists t :: t in TARGETS && v in Values(env, req, t)
  }

  lemma OnlyTargetsOffer(env: Env, req: Request, target: string, v: string)
    ensures v in Values(env, req, target) ==> target in TARGETS && Offers(env, req, v)
  {}

  // A request in origin form: its URL is its path and query.
  predicate PathAndQuery(req: Request) {
    req.url == req.path + "?" + req.query || (req.query == "" && req.url == req.path)
  }

  // ... whose query carries no percent-encoding.
  predicate OriginForm(req: Request) {
    PathAndQuery(req) && Unencoded(req.query)
  }

  // A server delivers no request without a method or a leading slash.
  predicate Deliverable(req: Request) {
    req.method_ != "" && HasPrefix(req.path, "/")
  }

  lemma KeywordChars(pat: string)
    ensures forall c :: c in RequiredKeyword(pat) ==> KeywordChar(c)
  {
    if RequiredKeyword(pat) != "" {
      KeywordIsLongestRun(pat);
    }
  }

  lemma {:induction false} HeaderInPayload(values: seq<string>, k: nat, kw: string)
    requires k < |values| && Contains(ToLower(values[k]), kw)
    ensures Contains(JoinHeaders(values), kw)
  {
    if k == 0 {
      ContainsLeft(ToLower(values[0]), "|", kw);
      ContainsLeft(ToLower(values[0]) + "|", JoinHeaders(values[1..]), kw);
    } else {
      HeaderInPayload(values[1..], k - 1, kw);
      ContainsRight(ToLower(values[0]) + "|", JoinHeaders(values[1..]), kw);
    }
  }

  lemma {:induction false} GetIsAValue(headers: seq<Header>, name: string)
    requires HeaderGet(headers, name) != ""
    ensures HeaderGet(headers, name) in HeaderValues(headers)
  {
    if headers[0].name != name {
      GetIsAValue(headers[1..], name);
    }
  }

  // Query arguments, without decoding, and cookie values are substrings.
  lemma RawArgContained(part: string)
    ensures Contains(part, RawArg(part))
  {
    var e := Cut(part, {'='});
    ContainsSelf(RawArg(part));
    if e < |part| {
      ContainsSuffix(part, e + 1, RawArg(part));
    }
  }

  predicate Unencoded(query: string) {
    '%' !in query
  }

  lemma UnencodedParts(query: string, i: nat)
    ensures Unencoded(query) && i <= |query| ==> Unencoded(query[..i]) && Unencoded(query[i..])
  {}

  lemma {:induction false} ArgContained(env: Env, query: string, k: nat)
    requires Unencoded(query) && k < |QueryArgs(env, query)|
    ensures Contains(query, QueryArgs(env, query)[k])
    decreases |query|
  {
    hide Contains, RawArg, ArgValue, Unencoded;
    var i := Cut(query, {'&', ';'});
    if i > 0 && k == 0 {
      UnencodedParts(query, i);
      ArgValueContained(env, query[..i]);
      ContainsPrefix(query, i, ArgValue(env, query[..i]));
    } else {
      var k' := if i > 0 then k - 1 else k;
      if i < |query| {
        UnencodedParts(query, i + 1);
        ArgContained(env, query[i + 1..], k');
        ContainsSuffix(query, i + 1, QueryArgs(env, query[i + 1..])[k']);
      }
    }
  }

  lemma ArgValueContained(env: Env, part: string)
    requires Unencoded(part)
    ensures Contains(part, ArgValue(env, part))
  {
    RawArgContained(part);
    ContainsNoOther(part, RawArg(part), '%');
  }

  lemma CookieValueContained(part: string)
    ensures Contains(part, CookieValue(part))
  {
    RawArgContained(part);
    var val := RawArg(part);
    ContainsSelf(CookieValue(part));
    if |val| > 1 && val[0] == '"' && val[|val| - 1] == '"' {
      ContainsSlice(val, 1, |val| - 1, CookieValue(part));
      ContainsTransitive(part, val, CookieValue(part));
    }
  }

  lemma {:induction false} CookieContained(cookie: string, k: nat)
    requires k < |CookieValues(cookie)|
    ensures Contains(cookie, CookieValues(cookie)[k])
    decreases |cookie|
  {
    CookieStep(cookie);
    hide Contains, TrimSpace, CookieValue, CookieValues, At;
    var i := Cut(cookie, {';'});
    var rest := if i < |cookie| then cookie[i + 1..] else "";
    var part := TrimSpace(cookie[..i]);
    if part != "" && k == 0 {
      CookiePartContained(cookie[..i]);
      ContainsPrefix(cookie, i, CookieValue(part));
    } else {
      var k' := if part != "" then k - 1 else k;
      CookieContained(rest, k');
      if i < |cookie| {
        ContainsSuffix(cookie, i + 1, CookieValues(rest)[k']);
      } else {
        NoCookies();
      }
    }
  }

  lemma CookiePartContained(raw: string)
    ensures Contains(raw, CookieValue(TrimSpace(raw)))
  {
    hide Contains, TrimSpace, CookieValue;
    TrimContained(raw);
    CookieValueContained(TrimSpace(raw));
    ContainsTransitive(raw, TrimSpace(raw), CookieValue(TrimSpace(raw)));
  }

  // The five parts of the payload.
  lemma PayloadParts(req: Request, kw: string)
    ensures Contains(ToLower(req.path), kw) || Contains(ToLower(req.query), kw) ||
            Contains(ToLower(req.method_), kw) || Contains(JoinHeaders(HeaderValues(req.headers)), kw) ==>
              Contains(Payload(req), kw)
  {
    hide Contains, ToLower, JoinHeaders;
    var p, q, m := ToLower(req.path), ToLower(req.query), ToLower(req.method_);
    var h, c := JoinHeaders(HeaderValues(req.headers)), ToLower(HeaderGet(req.headers, "Cookie"));
    var afterM := "|" + (h + c);
    var afterQ := "|" + (m + afterM);
    var afterP := "|" + (q + afterQ);
    if Contains(p, kw) {
      ContainsLeft(p, afterP, kw);
    }
    if Contains(h, kw) {
      ContainsLeft(h, c, kw);
      ContainsRight("|", h + c, kw);
      ContainsRight(m, afterM, kw);
    } else if Contains(m, kw) {
      ContainsLeft(m, afterM, kw);
    }
    if Contains(m + afterM, kw) {
      ContainsRight("|", m + afterM, kw);
      ContainsRight(q, afterQ, kw);
    } else if Contains(q, kw) {
      ContainsLeft(q, afterQ, kw);
    }
    if Contains(q + afterQ, kw) {
      ContainsRight("|", q + afterQ, kw);
      ContainsRight(p, afterP, kw);
    }
  }

  // A keyword found in any value a target offers is found in the payload.
  lemma ValueInPayload(env: Env, req: Request, target: string, k: nat, pat: string)
    requires PathAndQuery(req) && k < |Values(env, req, target)|
    requires target == "ARGS" ==> Unencoded(req.query)
    requires Contains(ToLower(Values(env, req, target)[k]), RequiredKeyword(pat)) && RequiredKeyword(pat) != ""
    ensures Contains(Payload(req), RequiredKeyword(pat))
  {
    var kw := RequiredKeyword(pat);
    var v := Values(env, req, target)[k];
    hide RequiredKeyword, Payload;
    PayloadParts(req, kw);
    if target == "URL" {
      UrlInParts(req, pat);
    } else if target == "UA" {
      EmptyContainsNothing(kw);
      if v != "" {
        GetIsAValue(req.headers, "User-Agent");
        var j :| 0 <= j < |HeaderValues(req.headers)| && HeaderValues(req.headers)[j] == v;
        HeaderInPayload(HeaderValues(req.headers), j, kw);
      }
    } else if target == "HEADERS" {
      HeaderInPayload(HeaderValues(req.headers), k, kw);
    } else if target == "ARGS" {
      ArgContained(env, req.query, k);
      ContainsLower(req.query, v);
      ContainsTransitive(ToLower(req.query), ToLower(v), kw);
    } else if target == "COOKIES" {
      var cookie := HeaderGet(req.headers, "Cookie");
      CookieContained(cookie, k);
      ContainsLower(cookie, v);
      ContainsTransitive(ToLower(cookie), ToLower(v), kw);
      if cookie != "" {
        GetIsAValue(req.headers, "Cookie");
        var j :| 0 <= j < |HeaderValues(req.headers)| && HeaderValues(req.headers)[j] == cookie;
        HeaderInPayload(HeaderValues(req.headers), j, kw);
      }
    }
  }

  lemma UrlInParts(req: Request, pat: string)
    requires PathAndQuery(req) && Contains(ToLower(req.url), RequiredKeyword(pat))
    ensures Contains(ToLower(req.path), RequiredKeyword(pat)) || Contains(ToLower(req.query), RequiredKeyword(pat))
  {
    var kw := RequiredKeyword(pat);
    KeywordChars(pat);
    if req.url != req.path {
      assert ToLower(req.url) == ToLower(req.path) + ['?'] + ToLower(req.query);
      ContainsOneSide(ToLower(req.path), '?', ToLower(req.query), kw);
    }
  }

  // ---- One rule ---------------------------------------------------------

  // Whatever value of the request the pattern matches has the keyword, and so has the payload.
  ghost predicate Harmless(env: Env, rule: Rule, req: Request) {
    rule.requiredKeyword != "" ==>
      && rule.operator == "rx"
      && forall v :: Offers(env, req, v) && env.regex.matches(rule.pattern, v) ==>
           Contains(ToLower(v), rule.requiredKeyword) && Contains(Payload(req), rule.requiredKeyword)
  }

  lemma OperatesAlike(env: Env, rule: Rule, req: Request, value: string)
    requires Harmless(env, rule, req)
    ensures Offers(env, req, value) ==>
      && Operates(env, rule, value, true) == Operates(env, rule, value, false)
      && (Operates(env, rule, value, false) && rule.requiredKeyword != "" ==>
            Contains(Payload(req), rule.requiredKeyword))
  {
    hide Payload, Contains, Offers, ToLower;
  }

  lemma {:induction false} FirstValueAlike(env: Env, rule: Rule, req: Request, values: seq<string>, target: string)
    requires Harmless(env, rule, req) && forall v :: v in values ==> Offers(env, req, v)
    ensures FirstValue(env, rule, values, target, true) == FirstValue(env, rule, values, target, false)
    ensures FirstValue(env, rule, values, target, false).Found? && rule.requiredKeyword != "" ==>
      Contains(Payload(req), rule.requiredKeyword)
  {
    hide Payload, Contains, Offers, Harmless, Operates;
    if values != [] {
      OperatesAlike(env, rule, req, values[0]);
      FirstValueAlike(env, rule, req, values[1..], target);
    }
  }

  lemma {:induction false} FirstTargetAlike(env: Env, rule: Rule, targets: seq<string>, req: Request)
    requires Harmless(env, rule, req)
    ensures FirstTarget(env, rule, targets, req, true) == FirstTarget(env, rule, targets, req, false)
    ensures FirstTarget(env, rule, targets, req, false).Found? && rule.requiredKeyword != "" ==>
      Contains(Payload(req), rule.requiredKeyword)
  {
    if targets != [] {
      forall v | v in Values(env, req, targets[0]) ensures Offers(env, req, v) {
        OnlyTargetsOffer(env, req, targets[0], v);
      }
      hide Payload, Contains, Offers, Harmless, Values, FirstValue;
      FirstValueAlike(env, rule, req, Values(env, req, targets[0]), targets[0]);
      FirstTargetAlike(env, rule, targets[1..], req);
    }
  }

  lemma {:induction false} MatchAllAlike(env: Env, level: int, rules: seq<Rule>, req: Request)
    requires forall i :: 0 <= i < |rules| ==> Harmless(env, rules[i], req)
    ensures MatchAll(env, level, rules, req, true) == MatchAll(env, level, rules, req, false)
  {
    hide Payload, FirstTarget, Harmless, AddMatch;
    if rules != [] {
      var m := |rules| - 1;
      FirstTargetAlike(env, rules[m], rules[m].targets, req);
      MatchAllAlike(env, level, rules[..m], req);
    }
  }

  lemma InspectionAlike(env: Env, level: int, rules: seq<Rule>, req: Request)
    requires forall i :: 0 <= i < |rules| ==> Harmless(env, rules[i], req)
    ensures Inspection(env, level, rules, req, true) == Inspection(env, level, rules, req, false)
  {
    hide MatchAll, StaticAsset, Harmless;
    MatchAllAlike(env, level, rules, req);
  }

  // A single rule that only the unfiltered inspection finds.
  lemma InspectionDiffers(env: Env, level: int, rule: Rule, req: Request)
    requires rule.enabled && rule.paranoia <= level && !StaticAsset(req.path)
    requires RuleMatch(env, level, rule, req, true).NoMatch?
    requires FirstTarget(env, rule, rule.targets, req, false).Found?
    ensures Inspection(env, level, [rule], req, true) != Inspection(env, level, [rule], req, false)
    ensures rule.action == "block" && FirstTarget(env, rule, rule.targets, req, false).match_.rule == rule ==>
      !Inspection(env, level, [rule], req, true).blocked && Inspection(env, level, [rule], req, false).blocked
  {
    hide FirstTarget, Payload, StaticAsset;
    assert [rule][..0] == [];
    assert MatchAll(env, level, [], req, true) == CLEAN == MatchAll(env, level, [], req, false);
    assert |MatchAll(env, level, [rule], req, false).matches| == 1;
  }

  // ---- Patterns of literals and '.' -------------------------------------

  // A rule whose keyword, if any, comes from an rx pattern of literals and '.'.
  predicate SafeRule(rule: Rule) {
    Prepared(rule) &&
    (rule.requiredKeyword != "" ==> rule.operator == "rx" && Plain(rule.pattern) && Ascii(rule.pattern))
  }

  predicate AsciiRequest(env: Env, req: Request) {
    forall t, v :: t in TARGETS && v in Values(env, req, t) ==> Ascii(v)
  }

  predicate Word(w: string) {
    |w| >= MIN_KEYWORD && forall c :: c in w ==> KeywordChar(c)
  }

  // Every word of a value that a rule may look at is in the payload.
  ghost predicate WordsKept(env: Env, req: Request) {
    forall v, w :: Offers(env, req, v) && Word(w) && Contains(ToLower(v), w) ==> Contains(Payload(req), w)
  }

  lemma KeywordIsWord(pat: string)
    requires RequiredKeyword(pat) != ""
    ensures Word(RequiredKeyword(pat))
  {
    KeywordIsLongestRun(pat);
    KeywordChars(pat);
  }

  lemma SafeIsHarmless(env: Env, rule: Rule, req: Request)
    requires Faithful(env.regex) && SafeRule(rule) && AsciiRequest(env, req) && WordsKept(env, req)
    ensures Harmless(env, rule, req)
  {
    var kw := rule.requiredKeyword;
    if kw != "" {
      KeywordIsWord(rule.patternLower);
      hide Payload, Contains, ToLower, RequiredKeyword, Word;
      forall v | Offers(env, req, v) && env.regex.matches(rule.pattern, v)
        ensures Contains(ToLower(v), kw) && Contains(Payload(req), kw)
      {
        assert Ascii(v);
        MatchContainsKeyword(rule.pattern, v);
      }
    }
  }

  lemma KeptWordsHideFilter(env: Env, level: int, rules: seq<Rule>, req: Request)
    requires Faithful(env.regex) && AsciiRequest(env, req) && WordsKept(env, req)
    requires forall i :: 0 <= i < |rules| ==> SafeRule(rules[i])
    ensures Inspection(env, level, rules, req, true) == Inspection(env, level, rules, req, false)
  {
    hide Inspection, SafeRule, Faithful, AsciiRequest, WordsKept, Harmless;
    forall i | 0 <= i < |rules| ensures Harmless(env, rules[i], req) {
      SafeIsHarmless(env, rules[i], req);
    }
    InspectionAlike(env, level, rules, req);
  }

  // A lost word is one that some safe rule looks for.
  lemma LostWordHasRule(env: Env, level: int, req: Request)
    requires Faithful(env.regex) && AsciiRequest(env, req) && !StaticAsset(req.path)
    ensures !WordsKept(env, req) ==>
      exists rule :: SafeRule(rule) &&
        Inspection(env, level, [rule], req, true) != Inspection(env, level, [rule], req, false)
  {
    if WordsKept(env, req) {
      return;
    }
    var v, w :| Offers(env, req, v) && Word(w) && Contains(ToLower(v), w) && !Contains(Payload(req), w);
    var t :| t in TARGETS && v in Values(env, req, t);
    hide Inspection, SafeRule, Faithful, AsciiRequest, StaticAsset, Offers, Word, Contains, Payload, Values;
    MatchesWord(env, v, w);
    WordRuleIsSafe(level, t, w);
    LostWordShows(env, level, req, t, v, w);
    var rule := WordRule(level, t, w);
    assert SafeRule(rule);
  }

  // MAIN RESULT. On any request of ASCII text the pre-filter is invisible to all lists of safe
  // rules exactly when every word of at least four keyword characters in a value the request
  // offers, in lower case, is also in its payload.
  lemma PrefilterInvisibleOnIff(env: Env, level: int, req: Request)
    requires Faithful(env.regex) && AsciiRequest(env, req) && !StaticAsset(req.path)
    ensures WordsKept(env, req) <==>
      forall rules: seq<Rule> :: (forall i :: 0 <= i < |rules| ==> SafeRule(rules[i])) ==>
        Inspection(env, level, rules, req, true) == Inspection(env, level, rules, req, false)
  {
    hide Inspection, SafeRule, Faithful, AsciiRequest, StaticAsset;
    if WordsKept(env, req) {
      forall rules: seq<Rule> | forall i :: 0 <= i < |rules| ==> SafeRule(rules[i])
        ensures Inspection(env, level, rules, req, true) == Inspection(env, level, rules, req, false)
      {
        hide WordsKept;
        KeptWordsHideFilter(env, level, rules, req);
      }
    } else {
      hide WordsKept;
      LostWordHasRule(env, level, req);
      var rule :| SafeRule(rule) &&
        Inspection(env, level, [rule], req, true) != Inspection(env, level, [rule], req, false);
      var rules := [rule];
      assert forall i :: 0 <= i < |rules| ==> SafeRule(rules[i]);
    }
  }

  lemma {:induction false} ScanWord(w: string)
    requires forall c :: c in w ==> KeywordChar(c)
    ensures Scanned(w) == Scan(w, "")
  {
    if w != "" {
      var m := |w| - 1;
      ScanWord(w[..m]);
      assert w[m] in w && w[..m] + [w[m]] == w;
    }
  }

  lemma WordIsItsKeyword(w: string)
    requires Word(w)
    ensures RequiredKeyword(w) == w && ToLower(w) == w && Plain(w) && Ascii(w)
  {
    ScanWord(w);
    hide Scanned;
    WordCharacters(w);
    hide Lower, KeywordChar, DISJUNCTIVE, META;
    assert ToLower(w) == w;
  }

  lemma WordCharacters(w: string)
    requires Word(w)
    ensures forall c :: c in w ==> c !in DISJUNCTIVE && c !in META && c < 128 as char
    ensures forall i :: 0 <= i < |w| ==> Lower(w[i]) == w[i]
  {
    forall c | c in w ensures c !in DISJUNCTIVE && c !in META && c < 128 as char && Lower(c) == c {
      assert KeywordChar(c);
    }
  }

  lemma WordMatches(w: string, v: string)
    requires Word(w) && Contains(ToLower(v), w)
    ensures PlainMatch(w, v)
  {
    var i: nat :| i <= |ToLower(v)| && At(ToLower(v), i, w);
    forall j | 0 <= j < |w| ensures MatchesChar(w[j], v[i + j]) {
      assert KeywordChar(w[j]);
      assert ToLower(v)[i..i + |w|][j] == ToLower(v)[i + j] == Lower(v[i + j]);
    }
    assert PlainMatchAt(w, v, i);
  }

  lemma MatchesWord(env: Env, v: string, w: string)
    requires Faithful(env.regex) && Ascii(v) && Word(w)
    ensures Contains(ToLower(v), w) ==> env.regex.matches(w, v)
  {
    WordIsItsKeyword(w);
    hide Contains, ToLower, RequiredKeyword, PlainMatch, Values;
    if Contains(ToLower(v), w) {
      WordMatches(w, v);
    }
  }

  lemma FoundAtTarget(env: Env, rule: Rule, req: Request, t: string, v: string)
    requires t in rule.targets && v in Values(env, req, t) && Operates(env, rule, v, false)
    ensures var m := FirstTarget(env, rule, rule.targets, req, false); m.Found? && m.match_.rule == rule
  {
    hide Operates, Values, FirstTarget, Truncate;
    FirstTargetIs(env, rule, req, false);
    var i: nat :| i < |rule.targets| && rule.targets[i] == t;
    var k: nat :| k < |Values(env, req, t)| && Values(env, req, t)[k] == v;
    assert AcceptedAt(env, rule, req, false, i, k);
  }

  // A rule that looks for the word itself in a target that offers a value with it.
  function WordRule(level: int, target: string, w: string): Rule {
    Rule("1", "low", [target], "rx", w, w, w, true, "block", true, level)
  }

  lemma WordRuleIsSafe(level: int, target: string, w: string)
    requires Word(w)
    ensures SafeRule(WordRule(level, target, w))
  {
    WordIsItsKeyword(w);
    hide RequiredKeyword, ToLower, Plain, Ascii;
  }

  lemma LostWordShows(env: Env, level: int, req: Request, t: string, v: string, w: string)
    requires v in Values(env, req, t) && env.regex.matches(w, v)
    requires w != "" && !Contains(Payload(req), w) && !StaticAsset(req.path)
    ensures var rule := WordRule(level, t, w);
      && Inspection(env, level, [rule], req, true) != Inspection(env, level, [rule], req, false)
      && !Inspection(env, level, [rule], req, true).blocked && Inspection(env, level, [rule], req, false).blocked
  {
    var rule := WordRule(level, t, w);
    hide Payload, Contains, Values, FirstTarget, StaticAsset, Inspection;
    FoundAtTarget(env, rule, req, t, v);
    assert RuleMatch(env, level, rule, req, true).NoMatch?;
    InspectionDiffers(env, level, rule, req);
  }

  // An unencoded request in origin form keeps all its words.
  lemma OriginFormKeepsWords(env: Env, req: Request)
    requires OriginForm(req)
    ensures WordsKept(env, req)
  {
    forall v, w | Offers(env, req, v) && Word(w) && Contains(ToLower(v), w)
      ensures Contains(Payload(req), w)
    {
      var t :| t in TARGETS && v in Values(env, req, t);
      var k :| 0 <= k < |Values(env, req, t)| && Values(env, req, t)[k] == v;
      WordIsItsKeyword(w);
      hide Payload, Contains, Values, ToLower, RequiredKeyword;
      ValueInPayload(env, req, t, k, w);
    }
  }

  // MAIN RESULT. So on requests in origin form without percent-encoding, and rules whose keyword
  // (if any) comes from an rx pattern of literals and '.', inspection with the pre-filter gives
  // the same matches, score, blocked flag, action and top rule as inspection without it.
  lemma PrefilterInvisible(env: Env, level: int, rules: seq<Rule>, req: Request)
    requires Faithful(env.regex) && OriginForm(req) && AsciiRequest(env, req)
    requires forall i :: 0 <= i < |rules| ==> SafeRule(rules[i])
    ensures Inspection(env, level, rules, req, true) == Inspection(env, level, rules, req, false)
  {
    hide Inspection, SafeRule, Faithful, AsciiRequest, OriginForm, WordsKept;
    OriginFormKeepsWords(env, req);
    KeptWordsHideFilter(env, level, rules, req);
  }

  // ---- Percent-encoding -------------------------------------------------

  // The request-level check looks at the raw query, the rules at decoded arguments.
  ghost predicate ArgumentWordsKept(env: Env, req: Request) {
    forall v, w :: v in QueryArgs(env, req.query) && Word(w) && Contains(ToLower(v), w) ==> Contains(Payload(req), w)
  }

  // MAIN RESULT. On any request in origin form, encoded or not, the pre-filter is invisible to
  // all lists of safe rules exactly when every word in an argument value is in the payload.
  lemma DecodingShowsIff(env: Env, level: int, req: Request)
    requires Faithful(env.regex) && PathAndQuery(req) && AsciiRequest(env, req) && !StaticAsset(req.path)
    ensures ArgumentWordsKept(env, req) <==>
      forall rules: seq<Rule> :: (forall i :: 0 <= i < |rules| ==> SafeRule(rules[i])) ==>
        Inspection(env, level, rules, req, true) == Inspection(env, level, rules, req, false)
  {
    PrefilterInvisibleOnIff(env, level, req);
    OnlyArgumentsMatter(env, req);
    hide WordsKept, ArgumentWordsKept, SafeRule, Inspection;
  }

  lemma OnlyArgumentsMatter(env: Env, req: Request)
    requires PathAndQuery(req)
    ensures ArgumentWordsKept(env, req) <==> WordsKept(env, req)
  {
    assert Values(env, req, "ARGS") == QueryArgs(env, req.query);
    assert forall v :: v in QueryArgs(env, req.query) ==> Offers(env, req, v);
    if ArgumentWordsKept(env, req) {
      forall v, w | Offers(env, req, v) && Word(w) && Contains(ToLower(v), w)
        ensures Contains(Payload(req), w)
      {
        var t :| t in TARGETS && v in Values(env, req, t);
        if t != "ARGS" {
          var k :| 0 <= k < |Values(env, req, t)| && Values(env, req, t)[k] == v;
          WordIsItsKeyword(w);
          hide Payload, Contains, Values, ToLower, RequiredKeyword;
          ValueInPayload(env, req, t, k, w);
        }
      }
    }
  }

  const ENCODED_REQUEST := Request("/", "a=%64rop", "GET", "/?a=%64rop", [])

  // Such a request: the first letter of the word is encoded, and the rule that looks for the
  // word blocks it only without the filter.
  lemma DecodingShows(env: Env, level: int)
    requires Faithful(env.regex) && env.unescape("%64rop") == Decoded("drop")
    ensures Deliverable(ENCODED_REQUEST) && PathAndQuery(ENCODED_REQUEST) && AsciiRequest(env, ENCODED_REQUEST)
    ensures !ArgumentWordsKept(env, ENCODED_REQUEST)
    ensures var rule := WordRule(level, "ARGS", "drop");
      && SafeRule(rule)
      && !Inspection(env, level, [rule], ENCODED_REQUEST, true).blocked
      && Inspection(env, level, [rule], ENCODED_REQUEST, false).blocked
  {
    var req := ENCODED_REQUEST;
    DecodedArgument(env);
    EncodedRequest(env);
    RawPayload(req);
    ContainsSelf("drop");
    Literals();
    assert "drop" in QueryArgs(env, req.query);
    assert Values(env, req, "ARGS") == QueryArgs(env, req.query);
    hide Payload, Contains, QueryArgs, ToLower, Word, Faithful, Values, Ascii, Inspection, StaticAsset, SafeRule;
    hide AsciiRequest, Deliverable, PathAndQuery;
    assert Offers(env, req, "drop");
    MatchesWord(env, "drop", "drop");
    WordRuleIsSafe(level, "ARGS", "drop");
    LostWordShows(env, level, req, "ARGS", "drop", "drop");
  }

  lemma EncodedRequest(env: Env)
    requires env.unescape("%64rop") == Decoded("drop")
    ensures Deliverable(ENCODED_REQUEST) && PathAndQuery(ENCODED_REQUEST) && AsciiRequest(env, ENCODED_REQUEST)
  {
    assert "/" + "?" + "a=%64rop" == "/?a=%64rop";
    hide Ascii, Values;
    forall t, v | t in TARGETS && v in Values(env, ENCODED_REQUEST, t) ensures Ascii(v) {
      EncodedValue(env, t, v);
    }
  }

  lemma EncodedValue(env: Env, target: string, v: string)
    requires env.unescape("%64rop") == Decoded("drop") && v in Values(env, ENCODED_REQUEST, target)
    ensures Ascii(v)
  {
    hide QueryArgs, CookieValues, HeaderGet, HeaderValues, Ascii;
    Literals();
    DecodedArgument(env);
    assert ENCODED_REQUEST.headers == [];
    if target == "ARGS" {
      assert Values(env, ENCODED_REQUEST, target) == ["drop"];
    }
  }

  lemma DecodedArgument(env: Env)
    requires env.unescape("%64rop") == Decoded("drop")
    ensures QueryArgs(env, "a=%64rop") == ["drop"]
  {
    var q := "a=%64rop";
    assert q[..8] == q;
    assert Cut(q, {'&', ';'}) == 8;
    assert Cut(q, {'='}) == 1 by { assert q[1] == '='; }
    assert q[2..] == "%64rop";
    assert RawArg(q) == "%64rop";
    assert "%64rop"[0] == '%';
    assert ArgValue(env, q) == "drop";
    hide ArgValue, Cut;
    assert QueryArgs(env, q) == ["drop"] + QueryArgs(env, "");
  }

  lemma RawPayload(req: Request)
    requires req == Request("/", "a=%64rop", "GET", "/?a=%64rop", [])
    ensures !Contains(Payload(req), "drop")
  {
    hide Contains, At, ToLower;
    Literals();
    hide JoinHeaders, HeaderValues, HeaderGet;
    var query := "a=%64rop";
    assert Payload(req) == "/" + ("|" + (query + ("|" + ("get" + ("|" + ("" + ""))))));
    hide Payload;
    assert 'd' !in query && "drop"[0] == 'd';
    if Contains(Payload(req), "drop") {
      ContainsNoOther(Payload(req), "drop", 'd');
    }
  }

  // ---- Negated rules ----------------------------------------------------

  // Offers every target one or more very short values.
  const SHORT_REQUEST := Request("/", "a", "GET", "/?a", [Header("Cookie", "a")])

  lemma ShortRequest(env: Env)
    ensures Deliverable(SHORT_REQUEST) && OriginForm(SHORT_REQUEST) && AsciiRequest(env, SHORT_REQUEST)
  {
    assert "/" + "?" + "a" == "/?a";
    hide Values, Ascii, TARGETS;
    forall t, v | t in TARGETS && v in Values(env, SHORT_REQUEST, t) ensures Ascii(v) {
      ShortValues(env, t);
    }
  }

  lemma ShortValues(env: Env, target: string)
    requires target in TARGETS
    ensures var vs := Values(env, SHORT_REQUEST, target);
      vs != [] && forall v :: v in vs ==> |v| < MIN_KEYWORD && Ascii(v)
  {
    hide QueryArgs, CookieValues, Ascii, HeaderGet, HeaderValues;
    Literals();
    ShortLists(env);
  }

  lemma ShortLists(env: Env)
    ensures QueryArgs(env, "a") == ["a"] && CookieValues("a") == ["a"]
    ensures HeaderGet([Header("Cookie", "a")], "User-Agent") == ""
    ensures HeaderGet([Header("Cookie", "a")], "Cookie") == "a"
    ensures HeaderValues([Header("Cookie", "a")]) == ["a"]
  {
    assert "a"[..1] == "a" && RawArg("a") == "a" && TrimSpace("a") == "a";
    assert HeaderGet([Header("Cookie", "a")][1..], "User-Agent") == "";
    hide RawArg, TrimSpace;
    assert HeaderValues([Header("Cookie", "a")]) == ["a"] + HeaderValues([]);
  }

  lemma ShortPayload(w: string)
    requires Word(w)
    ensures !Contains(Payload(SHORT_REQUEST), w)
  {
    var s := "/|a|get|a|a";
    assert ToLower("/") == "/" && ToLower("a") == "a" && ToLower("GET") == "get";
    assert HeaderValues([Header("Cookie", "a")]) == ["a"] + HeaderValues([]);
    assert JoinHeaders(["a"]) == "a|";
    assert Payload(SHORT_REQUEST) == s;
    hide Payload;
    assert '|' !in w;
    forall i: nat | i <= |s| ensures !At(s, i, w) {
      if At(s, i, w) {
        WindowHasBar(i, w);
      }
    }
  }

  lemma WindowHasBar(i: nat, word: string)
    requires At("/|a|get|a|a", i, word) && |word| >= MIN_KEYWORD
    ensures '|' in word
  {
    var s := "/|a|get|a|a";
    assert word[0] == s[i] && word[1] == s[i + 1] && word[2] == s[i + 2] && word[3] == s[i + 3];
  }

  // MAIN RESULT. For a rule of literals and '.' in force on some target, the pre-filter is
  // invisible on all such requests exactly when it is not a negated rule with a keyword: the
  // keyword is then required of requests that the rule matches for the lack of it.
  lemma PrefilterInvisibleIff(env: Env, level: int, rule: Rule)
    requires Faithful(env.regex) && Prepared(rule) && rule.compiled && Plain(rule.pattern) && Ascii(rule.pattern)
    requires rule.enabled && rule.paranoia <= level
    requires exists i :: 0 <= i < |rule.targets| && rule.targets[i] in TARGETS
    ensures (forall req :: OriginForm(req) && Deliverable(req) && AsciiRequest(env, req) ==>
               Inspection(env, level, [rule], req, true) == Inspection(env, level, [rule], req, false))
            <==> rule.operator != "!rx" || rule.requiredKeyword == ""
  {
    if rule.operator != "!rx" || rule.requiredKeyword == "" {
      assert SafeRule(rule);
      hide Inspection, SafeRule, OriginForm, Deliverable, AsciiRequest, Faithful;
      forall req | OriginForm(req) && AsciiRequest(env, req)
        ensures Inspection(env, level, [rule], req, true) == Inspection(env, level, [rule], req, false)
      {
        PrefilterInvisible(env, level, [rule], req);
      }
    } else {
      hide Inspection, OriginForm, Deliverable, AsciiRequest, Faithful, Plain;
      ShortRequest(env);
      NegationShows(env, level, rule);
    }
  }

  lemma NegationShows(env: Env, level: int, rule: Rule)
    requires Faithful(env.regex) && Prepared(rule) && rule.compiled && Plain(rule.pattern) && Ascii(rule.pattern)
    requires rule.enabled && rule.paranoia <= level && rule.operator == "!rx" && rule.requiredKeyword != ""
    requires exists i :: 0 <= i < |rule.targets| && rule.targets[i] in TARGETS
    ensures Inspection(env, level, [rule], SHORT_REQUEST, true) != Inspection(env, level, [rule], SHORT_REQUEST, false)
  {
    var i :| 0 <= i < |rule.targets| && rule.targets[i] in TARGETS;
    var t := rule.targets[i];
    KeywordIsWord(rule.patternLower);
    ShortPayload(rule.requiredKeyword);
    KeywordIsLongestRun(rule.patternLower);
    ShortValues(env, t);
    var v := Values(env, SHORT_REQUEST, t)[0];
    assert Ascii(v) && |v| < MIN_KEYWORD;
    assert !PlainMatch(rule.pattern, v);
    assert Operates(env, rule, v, false);
    hide FirstTarget, Payload, RequiredKeyword, Values, Operates, Contains, Faithful, Plain, AsciiRequest, Offers;
    FoundAtTarget(env, rule, SHORT_REQUEST, t, v);
    assert RuleMatch(env, level, rule, SHORT_REQUEST, true).NoMatch?;
    Literals();
    InspectionDiffers(env, level, rule, SHORT_REQUEST);
  }

  // What the example requests are made of.
  lemma Literals()
    ensures ToLower("") == "" && ToLower("/") == "/" && ToLower("a") == "a" && ToLower("GET") == "get"
    ensures ToLower("a=%64rop") == "a=%64rop" && ToLower("drop") == "drop" && Word("drop")
    ensures Ascii("/") && Ascii("GET") && Ascii("") && Ascii("a") && Ascii("/?a")
    ensures Ascii("a=%64rop") && Ascii("/?a=%64rop") && Ascii("drop")
    ensures HeaderGet([], "User-Agent") == "" && HeaderGet([], "Cookie") == ""
    ensures HeaderValues([]) == [] && CookieValues("") == [] && JoinHeaders([]) == ""
    ensures !StaticAsset("/")
  {}

  // ---- Any pattern ------------------------------------------------------

  // Printable ASCII that a header can carry: no space around it.
  predicate HeaderText(v: string) {
    (forall c :: c in v ==> ' ' <= c <= '~') && TrimSpace(v) == v
  }

  predicate OffersText(env: Env, req: Request) {
    forall t, v :: t in TARGETS && v in Values(env, req, t) ==> HeaderText(v)
  }

  // What the extraction takes for granted of a pattern.
  ghost predicate KeywordSound(lib: RegexLib, pattern: string) {
    forall v :: HeaderText(v) && lib.matches(pattern, v) ==>
      Contains(ToLower(v), RequiredKeyword(ToLower(pattern)))
  }

  // MAIN RESULT. For a compiled rx rule with any pattern at all that looks at the headers, the
  // pre-filter is invisible on all such requests exactly when every text the pattern matches
  // contains the keyword that was extracted from it.
  lemma KeywordSoundIff(env: Env, level: int, rule: Rule)
    requires Prepared(rule) && rule.compiled && rule.operator == "rx" && "HEADERS" in rule.targets
    requires rule.enabled && rule.paranoia <= level
    ensures (forall req :: OriginForm(req) && Deliverable(req) && OffersText(env, req) ==>
               Inspection(env, level, [rule], req, true) == Inspection(env, level, [rule], req, false))
            <==> KeywordSound(env.regex, rule.pattern)
  {
    if KeywordSound(env.regex, rule.pattern) {
      forall req | OriginForm(req) && OffersText(env, req)
        ensures Inspection(env, level, [rule], req, true) == Inspection(env, level, [rule], req, false)
      {
        SoundIsHarmless(env, rule, req);
        hide Inspection, OriginForm, OffersText, Harmless;
        InspectionAlike(env, level, [rule], req);
      }
    } else {
      var v :| HeaderText(v) && env.regex.matches(rule.pattern, v) && !Contains(ToLower(v), rule.requiredKeyword);
      hide Inspection, OriginForm, Deliverable, OffersText;
      HeaderRequest(env, v);
      UnsoundShows(env, level, rule, v);
    }
  }

  lemma SoundIsHarmless(env: Env, rule: Rule, req: Request)
    requires Prepared(rule) && rule.compiled && rule.operator == "rx" && OriginForm(req) && OffersText(env, req)
    requires KeywordSound(env.regex, rule.pattern)
    ensures Harmless(env, rule, req)
  {
    var kw := rule.requiredKeyword;
    if kw != "" {
      forall v | Offers(env, req, v) && env.regex.matches(rule.pattern, v)
        ensures Contains(ToLower(v), kw) && Contains(Payload(req), kw)
      {
        var t :| t in TARGETS && v in Values(env, req, t);
        var k :| 0 <= k < |Values(env, req, t)| && Values(env, req, t)[k] == v;
        assert HeaderText(v);
        hide Payload, Contains, Values, ToLower, RequiredKeyword, HeaderText;
        ValueInPayload(env, req, t, k, rule.patternLower);
      }
    }
  }

  // A request that carries one text in a header of its own.
  function Carrying(v: string): Request {
    Request("/", "", "GET", "/", [Header("X-Text", v)])
  }

  lemma HeaderRequest(env: Env, v: string)
    requires HeaderText(v)
    ensures OriginForm(Carrying(v)) && Deliverable(Carrying(v)) && OffersText(env, Carrying(v))
    ensures v in Values(env, Carrying(v), "HEADERS")
  {
    CarriedValues(env, v);
    assert TrimSpace("/") == "/" && TrimSpace("GET") == "GET" && TrimSpace("") == "";
    hide Values;
  }

  lemma CarriedValues(env: Env, v: string)
    ensures Values(env, Carrying(v), "HEADERS") == [v]
    ensures forall t, x :: t in TARGETS && x in Values(env, Carrying(v), t) ==> x in {"/", "", "GET", v}
  {
    assert HeaderValues(Carrying(v).headers) == [v] + HeaderValues([]);
    assert HeaderGet(Carrying(v).headers[1..], "Cookie") == "" == HeaderGet(Carrying(v).headers[1..], "User-Agent");
  }

  lemma UnsoundShows(env: Env, level: int, rule: Rule, v: string)
    requires Prepared(rule) && rule.compiled && rule.operator == "rx" && "HEADERS" in rule.targets
    requires rule.enabled && rule.paranoia <= level
    requires HeaderText(v) && env.regex.matches(rule.pattern, v) && !Contains(ToLower(v), rule.requiredKeyword)
    ensures Inspection(env, level, [rule], Carrying(v), true) != Inspection(env, level, [rule], Carrying(v), false)
  {
    var kw := rule.requiredKeyword;
    var req := Carrying(v);
    HeaderRequest(env, v);
    CarriedValues(env, v);
    TooShort(v, kw);
    KeywordIsWord(rule.patternLower);
    forall t, x | t in TARGETS && x in Values(env, req, t)
      ensures !Operates(env, rule, x, true)
    {
      TooShort(x, kw);
    }
    assert Operates(env, rule, v, false);
    hide Values, Operates, Contains, RequiredKeyword, Payload, FirstTarget, OriginForm, OffersText, HeaderText;
    FoundAtTarget(env, rule, req, "HEADERS", v);
    NothingFound(env, rule, req);
    Literals();
    InspectionDiffers(env, level, rule, req);
  }

  lemma TooShort(x: string, w: string)
    ensures |x| < MIN_KEYWORD <= |w| ==> !Contains(ToLower(x), w)
    ensures w == "" ==> Contains(ToLower(x), w)
  {
    assert At(ToLower(x), 0, "");
  }

  lemma NothingFound(env: Env, rule: Rule, req: Request)
    requires forall t, x :: t in TARGETS && x in Values(env, req, t) ==> !Operates(env, rule, x, true)
    ensures FirstTarget(env, rule, rule.targets, req, true).NoMatch?
  {
    FirstTargetIs(env, rule, req, true);
    hide Values, Operates, FirstTarget;
    forall t: nat, v: nat ensures !AcceptedAt(env, rule, req, true, t, v) {
      if AcceptedAt(env, rule, req, true, t, v) {
        OnlyTargetsOffer(env, req, rule.targets[t], Values(env, req, rule.targets[t])[v]);
      }
    }
  }

  // A backslash's letter is taken for a literal, so a word after a backslash is no keyword: the
  // digit class in \drop matches "1rop", which the pre-filter hides.
  lemma EscapeShows(env: Env, level: int)
    requires env.regex.matches("\\drop", "1rop")
    ensures var rule := Rule("1", "low", ["HEADERS"], "rx", "\\drop", "\\drop", "drop", true, "block", true, level);
      var req := Carrying("1rop");
      Prepared(rule) && Inspection(env, level, [rule], req, true) != Inspection(env, level, [rule], req, false)
  {
    var rule := Rule("1", "low", ["HEADERS"], "rx", "\\drop", "\\drop", "drop", true, "block", true, level);
    hide Contains, RequiredKeyword, ToLower, TrimSpace, Inspection, Word;
    Literals();
    DropKeyword();
    DigitsText();
    UnsoundShows(env, level, rule, "1rop");
  }

  lemma DropKeyword()
    ensures ToLower("\\drop") == "\\drop" && RequiredKeyword("\\drop") == "drop"
  {
    Literals();
    hide RequiredKeyword;
    EscapeTakenForLiteral("drop");
    assert "\\" + "drop" == "\\drop";
  }

  lemma DigitsText()
    ensures HeaderText("1rop") && !Contains(ToLower("1rop"), "drop")
  {
    assert ToLower("1rop") == "1rop" && TrimSpace("1rop") == "1rop";
    hide ToLower, TrimSpace, Contains;
    assert 'd' !in "1rop" && "drop"[0] == 'd';
    if Contains("1rop", "drop") {
      ContainsNoOther("1rop", "drop", 'd');
    }
  }
}
