// What an inspection by the engine of rules/engine.go finds, scores and blocks, said of the rule
// list as a whole.
module Inspections {
  import opened RuleEngines
  import opened Text
  import opened Prefilters

  // ---- All rules --------------------------------------------------------

  ghost predicate Fires(env: Env, level: int, rule: Rule, req: Request, filter: bool) {
    && rule.enabled
    && rule.paranoia <= level
    && (filter && rule.requiredKeyword != "" ==> Contains(Payload(req), rule.requiredKeyword))
    && exists t: nat, v: nat :: AcceptedAt(env, rule, req, filter, t, v)
  }

  lemma RuleMatchIs(env: Env, level: int, rule: Rule, req: Request, filter: bool)
    ensures var m := RuleMatch(env, level, rule, req, filter);
      && m.Found? == Fires(env, level, rule, req, filter)
      && (m.Found? ==> ShowsFirst(env, rule, req, filter, m.match_))
  {
    hide FirstTarget, Payload, Contains, AcceptedAt, ShowsFirst;
    FirstTargetIs(env, rule, req, filter);
  }

  // `places` are the rules that fire, in list order, and the matches are theirs.
  ghost predicate MatchesAre(
    env: Env, level: int, rules: seq<Rule>, req: Request, filter: bool, matches: seq<Match>, places: seq<nat>)
  {
    && |places| == |matches|
    && (forall a, b :: 0 <= a < b < |places| ==> places[a] < places[b])
    && (forall i: nat :: i in places <==> i < |rules| && Fires(env, level, rules[i], req, filter))
    && forall k :: 0 <= k < |places| ==>
         places[k] < |rules| && ShowsFirst(env, rules[places[k]], req, filter, matches[k])
  }

  predicate Stops(rule: Rule) {
    rule.action in {"block", "drop"}
  }

  // The last of the matches whose rule stops the request gives action and top rule.
  ghost predicate VerdictIs(r: Result) {
    if exists k :: 0 <= k < |r.matches| && Stops(r.matches[k].rule) then
      r.blocked && exists k ::
        && 0 <= k < |r.matches|
        && Stops(r.matches[k].rule)
        && (forall j :: k < j < |r.matches| ==> !Stops(r.matches[j].rule))
        && r.action == r.matches[k].rule.action
        && r.topRule == r.matches[k].rule.id
    else !r.blocked && r.action == "" && r.topRule == ""
  }

  function Severities(matches: seq<Match>): seq<string> {
    seq(|matches|, k requires 0 <= k < |matches| => matches[k].rule.severity)
  }

  ghost function Points(n: multiset<string>): int {
    25 * n["critical"] + 15 * n["high"] + 10 * n["medium"] + 5 * n["low"]
    + (|n| - n["critical"] - n["high"] - n["medium"] - n["low"])
  }

  ghost predicate ScoreIs(r: Result) {
    r.score == Points(multiset(Severities(r.matches)))
  }

  lemma NothingAdded(r: Result)
    ensures AddMatch(r, NoMatch) == r
  {}

  lemma PointsAdd(n: multiset<string>, severity: string)
    ensures Points(n + multiset{severity}) == Points(n) + SeverityScore(severity)
  {
    var n' := n + multiset{severity};
    assert forall s :: n'[s] == n[s] + if s == severity then 1 else 0;
  }

  lemma ScoreAdds(r: Result, m: Match)
    requires ScoreIs(r)
    ensures ScoreIs(AddMatch(r, Found(m)))
  {
    hide Points, SeverityScore;
    assert Severities(r.matches + [m]) == Severities(r.matches) + [m.rule.severity];
    PointsAdd(multiset(Severities(r.matches)), m.rule.severity);
  }

  lemma VerdictAdds(r: Result, m: Match)
    requires VerdictIs(r)
    ensures VerdictIs(AddMatch(r, Found(m)))
  {
    var r' := AddMatch(r, Found(m));
    var n := |r.matches|;
    assert r'.matches[n] == m && forall k :: 0 <= k < n ==> r'.matches[k] == r.matches[k];
  }

  lemma MatchesGrow(
    env: Env, level: int, rules: seq<Rule>, rule: Rule, req: Request, filter: bool, r: Result, places: seq<nat>)
    requires MatchesAre(env, level, rules, req, filter, r.matches, places)
    ensures var m := RuleMatch(env, level, rule, req, filter);
      MatchesAre(env, level, rules + [rule], req, filter, AddMatch(r, m).matches,
                 if m.Found? then places + [|rules|] else places)
  {
    hide RuleMatch, Fires, ShowsFirst;
    RuleMatchIs(env, level, rule, req, filter);
    var m := RuleMatch(env, level, rule, req, filter);
    var places' := if m.Found? then places + [|rules|] else places;
    assert forall i: nat :: i < |rules| ==> (rules + [rule])[i] == rules[i];
    forall i: nat
      ensures i in places' <==> i < |rules + [rule]| && Fires(env, level, (rules + [rule])[i], req, filter)
    {
      assert i in places' <==> i in places || (m.Found? && i == |rules|);
    }
  }

  lemma {:induction false} MatchAllIs(env: Env, level: int, rules: seq<Rule>, req: Request, filter: bool)
    ensures var r := MatchAll(env, level, rules, req, filter);
      VerdictIs(r) && ScoreIs(r) && exists places :: MatchesAre(env, level, rules, req, filter, r.matches, places)
  {
    hide RuleMatch, AddMatch, ScoreIs, VerdictIs, MatchesAre;
    var r := MatchAll(env, level, rules, req, filter);
    if rules == [] {
      NothingMatched(env, level, req, filter);
    } else {
      var m := |rules| - 1;
      MatchAllIs(env, level, rules[..m], req, filter);
      var before := MatchAll(env, level, rules[..m], req, filter);
      var places :| MatchesAre(env, level, rules[..m], req, filter, before.matches, places);
      MatchesGrow(env, level, rules[..m], rules[m], req, filter, before, places);
      assert rules[..m] + [rules[m]] == rules;
      var found := RuleMatch(env, level, rules[m], req, filter);
      if found.Found? {
        ScoreAdds(before, found.match_);
        VerdictAdds(before, found.match_);
      } else {
        NothingAdded(before);
      }
    }
  }

  lemma NothingMatched(env: Env, level: int, req: Request, filter: bool)
    ensures VerdictIs(CLEAN) && ScoreIs(CLEAN) && MatchesAre(env, level, [], req, filter, [], [])
  {
    assert Severities([]) == [];
  }

  // ---- Static assets ----------------------------------------------------

  const ASSETS: set<string> := {".png", ".jpg", ".css", ".js", ".woff2", ".svg"}

  ghost predicate EndsIn(path: string, ending: string) {
    exists stem :: path == stem + ending
  }

  ghost predicate ForAsset(path: string) {
    (exists rest :: path == "/_next/static/" + rest) || exists ending :: ending in ASSETS && EndsIn(path, ending)
  }

  lemma EndsInIs(path: string, ending: string)
    ensures EndsIn(path, ending) <==> HasSuffix(path, ending)
  {
    if HasSuffix(path, ending) {
      assert path == path[..|path| - |ending|] + ending;
    }
  }

  lemma BeginsWithIs(path: string, start: string)
    ensures (exists rest :: path == start + rest) <==> HasPrefix(path, start)
  {
    if HasPrefix(path, start) {
      assert path == start + path[|start|..];
    }
  }

  lemma StaticAssetIs(path: string)
    ensures StaticAsset(path) <==> ForAsset(path)
  {
    BeginsWithIs(path, "/_next/static/");
    forall ending ensures EndsIn(path, ending) <==> HasSuffix(path, ending) {
      EndsInIs(path, ending);
    }
    hide EndsIn, HasSuffix, HasPrefix;
  }

  // MAIN RESULT. An inspection of any request that is not for a static file matches exactly the
  // rules, in list order, that are enabled, within the level, let through by the pre-filter (when
  // it is on) and have a target offering a value their operator accepts; each match shows the
  // first such value. The request is blocked iff one of them has the action block or drop, with
  // the action and the rule of the last such one, and the score adds up 25, 15, 10 and 5 for each
  // critical, high, medium and low severity, 1 for any other.
  lemma InspectionIs(env: Env, level: int, rules: seq<Rule>, req: Request, filter: bool)
    ensures var r := Inspection(env, level, rules, req, filter);
      if ForAsset(req.path) then r == CLEAN
      else VerdictIs(r) && ScoreIs(r) && exists places :: MatchesAre(env, level, rules, req, filter, r.matches, places)
  {
    hide MatchAll, VerdictIs, ScoreIs, MatchesAre, ForAsset, StaticAsset;
    StaticAssetIs(req.path);
    MatchAllIs(env, level, rules, req, filter);
  }

  // MAIN RESULT. With the pre-filter on, a request in origin form without percent-encoding matches
  // exactly the safe rules that are enabled, within the level and accept a value: the pre-filter
  // has no say.
  lemma EveryAcceptingRuleMatches(env: Env, level: int, rules: seq<Rule>, req: Request)
    requires Faithful(env.regex) && OriginForm(req) && AsciiRequest(env, req) && !ForAsset(req.path)
    requires forall i :: 0 <= i < |rules| ==> SafeRule(rules[i])
    ensures var r := Inspection(env, level, rules, req, true);
      exists places :: MatchesAre(env, level, rules, req, false, r.matches, places)
  {
    hide *;
    PrefilterInvisible(env, level, rules, req);
    InspectionIs(env, level, rules, req, false);
  }

  // ---- What a rule accepts ----------------------------------------------

  // The pattern operators, on rules as AddRule leaves them or with no lower-case pattern yet,
  // ignore case and look anywhere in the value, at all of it, at its start or at its end; rx and
  // !rx ask the regular expression, with the keyword first where there is one; an unknown operator
  // accepts nothing.
  lemma OperatorMeaning(env: Env, rule: Rule, value: string, filter: bool)
    requires rule.patternLower in {"", ToLower(rule.pattern)}
    ensures rule.operator == "contains" ==>
      (Operates(env, rule, value, filter) <==> exists i: nat :: StandsAt(rule.pattern, value, i))
    ensures rule.operator == "eq" ==>
      (Operates(env, rule, value, filter) <==> |value| == |rule.pattern| && StandsAt(rule.pattern, value, 0))
    ensures rule.operator == "beginsWith" ==>
      (Operates(env, rule, value, filter) <==> StandsAt(rule.pattern, value, 0))
    ensures rule.operator == "endsWith" ==>
      (Operates(env, rule, value, filter) <==>
        |rule.pattern| <= |value| && StandsAt(rule.pattern, value, |value| - |rule.pattern|))
    ensures rule.operator == "rx" ==>
      (Operates(env, rule, value, filter) <==>
        && rule.compiled
        && env.regex.matches(rule.pattern, value)
        && (filter ==> exists i: nat :: At(ToLower(value), i, rule.requiredKeyword)))
    ensures rule.operator == "!rx" ==>
      (Operates(env, rule, value, filter) <==> rule.compiled && !env.regex.matches(rule.pattern, value))
    ensures rule.operator !in {"rx", "!rx", "contains", "eq", "beginsWith", "endsWith"} ==>
      !Operates(env, rule, value, filter)
  {
    hide StandsAt;
    forall i: nat ensures StandsAt(rule.pattern, value, i) <==> At(ToLower(value), i, ToLower(rule.pattern)) {
      StandsAtIs(rule.pattern, value, i);
    }
    LowerPatternIs(rule);
    assert At(ToLower(value), 0, "");
  }

  lemma LowerPatternIs(rule: Rule)
    ensures rule.patternLower in {"", ToLower(rule.pattern)} ==> LowerPattern(rule) == ToLower(rule.pattern)
  {}

  // ---- What a target offers ---------------------------------------------

  predicate FirstAt(headers: seq<Header>, name: string, k: nat) {
    k < |headers| && headers[k].name == name && forall j :: 0 <= j < k ==> headers[j].name != name
  }

  // The value of the first header of that name, "" if there is none.
  ghost predicate FirstNamed(headers: seq<Header>, name: string, v: string) {
    if forall k :: 0 <= k < |headers| ==> headers[k].name != name then v == ""
    else exists k: nat :: FirstAt(headers, name, k) && v == headers[k].value
  }

  lemma {:induction false} HeaderGetIs(headers: seq<Header>, name: string)
    ensures FirstNamed(headers, name, HeaderGet(headers, name))
  {
    if headers == [] {
      return;
    }
    if headers[0].name == name {
      assert FirstAt(headers, name, 0);
      return;
    }
    HeaderGetIs(headers[1..], name);
    assert forall k :: 0 < k < |headers| ==> headers[k] == headers[1..][k - 1];
    if k :| 0 <= k < |headers| && headers[k].name == name {
      assert headers[1..][k - 1].name == name;
      var i: nat :| FirstAt(headers[1..], name, i) && HeaderGet(headers[1..], name) == headers[1..][i].value;
      assert FirstAt(headers, name, i + 1);
    }
  }

  lemma {:induction false} HeaderValuesAre(headers: seq<Header>)
    ensures |HeaderValues(headers)| == |headers|
    ensures forall k :: 0 <= k < |headers| ==> HeaderValues(headers)[k] == headers[k].value
  {
    if headers != [] {
      HeaderValuesAre(headers[1..]);
    }
  }

  // Each target's values; those of ARGS and COOKIES are the subject of the next two theorems.
  lemma TargetsOffer(env: Env, req: Request)
    ensures Values(env, req, "URL") == [req.url] && Values(env, req, "PATH") == [req.path]
    ensures Values(env, req, "QUERY") == [req.query] && Values(env, req, "METHOD") == [req.method_]
    ensures exists v :: Values(env, req, "UA") == [v] && FirstNamed(req.headers, "User-Agent", v)
    ensures exists v :: Values(env, req, "COOKIES") == CookieValues(v) && FirstNamed(req.headers, "Cookie", v)
    ensures Values(env, req, "ARGS") == QueryArgs(env, req.query)
    ensures var values := Values(env, req, "HEADERS");
      |values| == |req.headers| && forall k :: 0 <= k < |values| ==> values[k] == req.headers[k].value
    ensures forall target :: Values(env, req, target) != [] ==> target in TARGETS
  {
    HeaderGetIs(req.headers, "User-Agent");
    HeaderGetIs(req.headers, "Cookie");
    HeaderValuesAre(req.headers);
    hide HeaderGet, HeaderValues, FirstNamed, QueryArgs, CookieValues;
  }

  // An argument or a cookie: the spaces before its name, and what separates it from the next.
  datatype Pair = Pair(pad: string, name: string, value: string, gap: char)

  function Core(p: Pair): string {
    p.name + "=" + p.value
  }

  function After(gap: char, tail: string): string {
    if tail == "" then "" else [gap] + tail
  }

  function Joined(pairs: seq<Pair>): string {
    if pairs == [] then "" else pairs[0].pad + Core(pairs[0]) + After(pairs[0].gap, Joined(pairs[1..]))
  }

  const ARG_GAPS: set<char> := {'&', ';'}

  ghost predicate IsArg(p: Pair) {
    && p.pad == ""
    && p.gap in ARG_GAPS
    && '=' !in p.name
    && forall c :: c in ARG_GAPS ==> c !in p.name && c !in p.value
  }

  // A raw value is decoded when it holds an escape and all of its escapes are good.
  ghost predicate DecodesTo(env: Env, raw: string, v: string) {
    v == if '%' in raw && env.unescape(raw) != BadEscape then env.unescape(raw).value else raw
  }

  lemma CutAt(before: string, after: string, stops: set<char>)
    requires forall c :: c in before ==> c !in stops
    requires after == "" || after[0] in stops
    ensures Cut(before + after, stops) == |before|
  {
    var s := before + after;
    assert forall j :: 0 <= j < |before| ==> s[j] == before[j];
    assert after != "" ==> s[|before|] == after[0];
  }

  // What is left of a text after its first part.
  lemma CutParts(part: string, gap: char, tail: string, stops: set<char>)
    requires forall c :: c in part ==> c !in stops
    requires gap in stops
    ensures var s := part + After(gap, tail);
      var i := Cut(s, stops);
      s[..i] == part && (if i < |s| then s[i + 1..] else "") == tail
  {
    CutAt(part, After(gap, tail), stops);
    hide Cut;
    var s := part + After(gap, tail);
    assert s[..|part|] == part;
    if tail != "" {
      assert s[|part| + 1..] == tail;
    }
  }

  lemma RawArgIs(p: Pair)
    requires '=' !in p.name
    ensures RawArg(Core(p)) == p.value
  {
    assert Core(p) == p.name + ("=" + p.value);
    CutAt(p.name, "=" + p.value, {'='});
  }

  lemma ArgValueIs(env: Env, p: Pair)
    requires IsArg(p)
    ensures DecodesTo(env, p.value, ArgValue(env, Core(p)))
    ensures Core(p) != "" && forall c :: c in Core(p) ==> c !in ARG_GAPS
  {
    RawArgIs(p);
    hide RawArg;
  }

  lemma ArgThenRest(env: Env, part: string, gap: char, tail: string)
    requires part != "" && gap in ARG_GAPS && forall c :: c in part ==> c !in ARG_GAPS
    ensures QueryArgs(env, part + After(gap, tail)) == [ArgValue(env, part)] + QueryArgs(env, tail)
  {
    hide QueryArgs, Cut, After, ArgValue;
    CutParts(part, gap, tail, ARG_GAPS);
    ArgStep(env, part + After(gap, tail));
  }

  // The arguments of a query are its values, decoded, in order.
  lemma {:induction false} ArgsOffered(env: Env, pairs: seq<Pair>)
    requires forall k :: 0 <= k < |pairs| ==> IsArg(pairs[k])
    ensures var values := QueryArgs(env, Joined(pairs));
      |values| == |pairs| && forall k :: 0 <= k < |pairs| ==> DecodesTo(env, pairs[k].value, values[k])
  {
    hide DecodesTo, QueryArgs, Core, After, ArgValue;
    if pairs == [] {
      ArgStep(env, "");
    } else {
      var p := pairs[0];
      ArgValueIs(env, p);
      ArgThenRest(env, Core(p), p.gap, Joined(pairs[1..]));
      assert p.pad + Core(p) == Core(p);
      ArgsOffered(env, pairs[1..]);
    }
  }

  ghost predicate IsCookie(p: Pair) {
    && p.gap == ';'
    && (forall c :: c in p.pad ==> c in SPACES)
    && (p.name != "" ==> p.name[0] !in SPACES)
    && (p.value != "" ==> p.value[|p.value| - 1] !in SPACES)
    && '=' !in p.name
    && ';' !in p.name && ';' !in p.value
  }

  // A cookie's value without the quotes around it, if it has them.
  ghost predicate UnquotesTo(raw: string, v: string) {
    raw == "\"" + v + "\"" || (v == raw && !exists u: string :: raw == "\"" + u + "\"")
  }

  lemma CookieValueIs(p: Pair)
    requires IsCookie(p)
    ensures UnquotesTo(p.value, CookieValue(Core(p)))
  {
    RawArgIs(p);
    hide RawArg, Core;
    var v := p.value;
    if |v| > 1 && v[0] == '"' && v[|v| - 1] == '"' {
      assert v == "\"" + v[1..|v| - 1] + "\"";
    }
  }

  lemma CookiePart(p: Pair)
    requires IsCookie(p)
    ensures Core(p) != "" && TrimSpace(p.pad + Core(p)) == Core(p) && ';' !in p.pad + Core(p)
  {
    assert p.pad + "" == p.pad && p.pad + Core(p) + "" == p.pad + Core(p);
    TrimPadding(p.pad, Core(p), "");
  }

  lemma CookieThenRest(part: string, tail: string)
    requires ';' !in part && TrimSpace(part) != ""
    ensures CookieValues(part + After(';', tail)) == [CookieValue(TrimSpace(part))] + CookieValues(tail)
  {
    hide CookieValues, Cut, After, CookieValue, TrimSpace;
    CutParts(part, ';', tail, {';'});
    CookieStep(part + After(';', tail));
    TrimNothing();
  }

  lemma TrimNothing()
    ensures TrimSpace("") == ""
  {}

  // The cookies of a Cookie header are its values, unquoted, in order.
  lemma {:induction false} CookiesOffered(pairs: seq<Pair>)
    requires forall k :: 0 <= k < |pairs| ==> IsCookie(pairs[k])
    ensures var values := CookieValues(Joined(pairs));
      |values| == |pairs| && forall k :: 0 <= k < |pairs| ==> UnquotesTo(pairs[k].value, values[k])
  {
    hide UnquotesTo, CookieValues, TrimSpace, Core, After, CookieValue;
    if pairs == [] {
      NoCookies();
    } else {
      var p := pairs[0];
      CookiePart(p);
      CookieValueIs(p);
      CookieThenRest(p.pad + Core(p), Joined(pairs[1..]));
      CookiesOffered(pairs[1..]);
    }
  }
}
