// ASCII text operations of Go's strings package that the model relies on.
module Text {

  function Lower(c: char): char {
    if 'A' <= c <= 'Z' then c + 32 as char else c
  }

  function ToLower(s: string): (r: string)
    ensures |r| == |s| && forall i :: 0 <= i < |s| ==> r[i] == Lower(s[i])
  {
    seq(|s|, i requires 0 <= i < |s| => Lower(s[i]))
  }

  function ToUpper(s: string): (r: string)
    ensures |r| == |s| && forall i :: 0 <= i < |s| ==> Lower(r[i]) == Lower(s[i])
  {
    seq(|s|, i requires 0 <= i < |s| => if 'a' <= s[i] <= 'z' then s[i] - 32 as char else s[i])
  }

  predicate At(s: string, i: nat, sub: string) {
    i + |sub| <= |s| && s[i..i + |sub|] == sub
  }

  predicate Contains(s: string, sub: string) {
    exists i: nat | i <= |s| :: At(s, i, sub)
  }

  predicate HasPrefix(s: string, prefix: string) {
    prefix <= s
  }

  predicate HasSuffix(s: string, suffix: string) {
    |suffix| <= |s| && s[|s| - |suffix|..] == suffix
  }

  predicate EqualFold(a: string, b: string) {
    ToLower(a) == ToLower(b)
  }

  // Index of the first character that is in `stops`, |s| if there is none.
  function Cut(s: string, stops: set<char>): (i: nat)
    ensures i <= |s| && (i < |s| ==> s[i] in stops) && forall j :: 0 <= j < i ==> s[j] !in stops
  {
    if s == "" || s[0] in stops then 0 else 1 + Cut(s[1..], stops)
  }

  // Index of the last c, -1 if there is none.
  function LastIndex(s: string, c: char): (i: int)
    ensures -1 <= i < |s| && (i >= 0 ==> s[i] == c) && forall j :: i < j < |s| ==> s[j] != c
  {
    if s == "" then -1
    else if s[|s| - 1] == c then |s| - 1
    else LastIndex(s[..|s| - 1], c)
  }

  const SPACES: set<char> := {' ', '\t', '\n', '\r', 11 as char, 12 as char}

  function TrimLeft(s: string): string {
    if s != "" && s[0] in SPACES then TrimLeft(s[1..]) else s
  }

  function TrimRight(s: string): string {
    if s != "" && s[|s| - 1] in SPACES then TrimRight(s[..|s| - 1]) else s
  }

  function TrimSpace(s: string): string {
    TrimRight(TrimLeft(s))
  }

  lemma {:induction false} TrimLeftPadding(pad: string, s: string)
    requires forall c :: c in pad ==> c in SPACES
    ensures TrimLeft(pad + s) == TrimLeft(s)
  {
    if pad == "" {
      assert pad + s == s;
    } else {
      assert (pad + s)[1..] == pad[1..] + s;
      TrimLeftPadding(pad[1..], s);
    }
  }

  lemma {:induction false} TrimRightPadding(s: string, pad: string)
    requires forall c :: c in pad ==> c in SPACES
    ensures TrimRight(s + pad) == TrimRight(s)
  {
    if pad == "" {
      assert s + pad == s;
    } else {
      assert (s + pad)[..|s + pad| - 1] == s + pad[..|pad| - 1];
      TrimRightPadding(s, pad[..|pad| - 1]);
    }
  }

  predicate Trimmed(s: string) {
    s != "" ==> s[0] !in SPACES && s[|s| - 1] !in SPACES
  }

  // Trimming takes the spaces around a text away, and nothing else.
  lemma TrimPadding(before: string, s: string, after: string)
    requires forall c :: c in before + after ==> c in SPACES
    requires Trimmed(s)
    ensures TrimSpace(before + s + after) == s
  {
    assert before + s + after == before + (s + after);
    assert (forall c :: c in before ==> c in before + after) && (forall c :: c in after ==> c in before + after);
    TrimLeftPadding(before, s + after);
    if s == "" {
      assert s + after == after + "";
      TrimLeftPadding(after, "");
    } else {
      TrimRightPadding(s, after);
    }
  }

  // ---- Ignoring case ----------------------------------------------------

  // The pattern stands at position i of the value, whatever the case of either.
  predicate StandsAt(pattern: string, value: string, i: nat) {
    i + |pattern| <= |value| && forall j :: 0 <= j < |pattern| ==> Lower(pattern[j]) == Lower(value[i + j])
  }

  lemma StandsAtIs(pattern: string, value: string, i: nat)
    ensures StandsAt(pattern, value, i) <==> At(ToLower(value), i, ToLower(pattern))
  {
    if i + |pattern| <= |value| {
      assert ToLower(value)[i..i + |pattern|] == ToLower(pattern) <==>
        forall j :: 0 <= j < |pattern| ==> ToLower(value)[i..i + |pattern|][j] == ToLower(pattern)[j];
    }
  }

  lemma ContainsIgnoringCase(value: string, pattern: string)
    ensures Contains(ToLower(value), ToLower(pattern)) <==> exists i: nat :: StandsAt(pattern, value, i)
  {
    forall i: nat ensures StandsAt(pattern, value, i) <==> At(ToLower(value), i, ToLower(pattern)) {
      StandsAtIs(pattern, value, i);
    }
    hide StandsAt;
  }

  // ---- Substrings -------------------------------------------------------

  lemma ContainsSelf(s: string)
    ensures Contains(s, s)
  {
    assert At(s, 0, s);
  }

  lemma ContainsAround(before: string, s: string, after: string, sub: string)
    requires Contains(s, sub)
    ensures Contains(before + s + after, sub)
  {
    var i: nat :| i <= |s| && At(s, i, sub);
    assert (before + s + after)[|before| + i..|before| + i + |sub|] == s[i..i + |sub|];
    assert At(before + s + after, |before| + i, sub);
  }

  lemma ContainsSlice(s: string, i: nat, j: nat, sub: string)
    requires i <= j <= |s| && Contains(s[i..j], sub)
    ensures Contains(s, sub)
  {
    assert s == s[..i] + s[i..j] + s[j..];
    ContainsAround(s[..i], s[i..j], s[j..], sub);
  }

  lemma ContainsPrefix(s: string, i: nat, sub: string)
    requires i <= |s| && Contains(s[..i], sub)
    ensures Contains(s, sub)
  {
    assert s[0..i] == s[..i];
    ContainsSlice(s, 0, i, sub);
  }

  lemma ContainsSuffix(s: string, i: nat, sub: string)
    requires i <= |s| && Contains(s[i..], sub)
    ensures Contains(s, sub)
  {
    assert s[i..|s|] == s[i..];
    ContainsSlice(s, i, |s|, sub);
  }

  lemma ContainsLeft(a: string, b: string, sub: string)
    requires Contains(a, sub)
    ensures Contains(a + b, sub)
  {
    assert (a + b)[..|a|] == a;
    ContainsPrefix(a + b, |a|, sub);
  }

  lemma ContainsRight(a: string, b: string, sub: string)
    requires Contains(b, sub)
    ensures Contains(a + b, sub)
  {
    assert (a + b)[|a|..] == b;
    ContainsSuffix(a + b, |a|, sub);
  }

  lemma EmptyContainsNothing(sub: string)
    ensures sub != "" ==> !Contains("", sub)
  {}

  lemma ContainsNoOther(s: string, sub: string, c: char)
    ensures Contains(s, sub) && c !in s ==> c !in sub
  {}

  lemma ContainsTransitive(s: string, mid: string, sub: string)
    requires Contains(s, mid) && Contains(mid, sub)
    ensures Contains(s, sub)
  {
    var i: nat :| i <= |s| && At(s, i, mid);
    ContainsSlice(s, i, i + |mid|, sub);
  }

  lemma ContainsLower(s: string, sub: string)
    requires Contains(s, sub)
    ensures Contains(ToLower(s), ToLower(sub))
  {
    var i: nat :| i <= |s| && At(s, i, sub);
    assert At(ToLower(s), i, ToLower(sub));
  }

  // A substring without the separator lies on one side of it.
  lemma ContainsOneSide(a: string, c: char, b: string, sub: string)
    requires Contains(a + [c] + b, sub) && c !in sub
    ensures Contains(a, sub) || Contains(b, sub)
  {
    var s := a + [c] + b;
    var i: nat :| i <= |s| && At(s, i, sub);
    if i + |sub| <= |a| {
      assert At(a, i, sub);
    } else if i > |a| {
      AtRight(a + [c], b, i, sub);
    } else {
      Straddles(a, c, b, i, sub);
    }
  }

  lemma AtRight(a: string, b: string, i: nat, sub: string)
    ensures At(a + b, i, sub) && i >= |a| ==> At(b, i - |a|, sub)
  {}

  lemma Straddles(a: string, c: char, b: string, i: nat, sub: string)
    requires At(a + [c] + b, i, sub) && i <= |a| < i + |sub|
    ensures c in sub
  {
    assert (a + [c] + b)[i..i + |sub|][|a| - i] == c;
  }

  lemma TrimContained(s: string)
    ensures Contains(s, TrimSpace(s))
  {
    TrimLeftContained(s);
    TrimRightContained(TrimLeft(s));
    ContainsTransitive(s, TrimLeft(s), TrimSpace(s));
  }

  lemma {:induction false} TrimLeftContained(s: string)
    ensures Contains(s, TrimLeft(s))
  {
    if s != "" && s[0] in SPACES {
      TrimLeftContained(s[1..]);
      ContainsSuffix(s, 1, TrimLeft(s));
    } else {
      ContainsSelf(s);
    }
  }

  lemma {:induction false} TrimRightContained(s: string)
    ensures Contains(s, TrimRight(s))
  {
    if s != "" && s[|s| - 1] in SPACES {
      TrimRightContained(s[..|s| - 1]);
      ContainsPrefix(s, |s| - 1, TrimRight(s));
    } else {
      ContainsSelf(s);
    }
  }
}
