/** _obfuscate_secrets: thirteen regular-expression substitutions applied in order to a
    command before it is stored, then trailing whitespace stripped. */
module Secrets {
  import opened Records
  import opened Text

  /** One (pattern, replacement) pair of the substitution list. */
  datatype Rule = Rule(pattern: string, replacement: string)

  /** Flag followed by whitespace and an unquoted value. */
  const FlagValueRule: Rule := Rule(@"(-p|--password|--pass|--pwd)\s+\S+", @"\1 ****")

  /** The substitutions, in the order they are applied. */
  const Rules: seq<Rule> := [
    Rule(@"(-p|--password|--pass|--pwd)\s+""[^""]*""", @"\1 ****"),
    Rule(@"(-p|--password|--pass|--pwd)\s+'[^']*'", @"\1 ****"),
    FlagValueRule,
    Rule(@"(password=|pwd=|pass=)""[^""]*""", @"\1****"),
    Rule(@"(token=|api_key=|apikey=|secret=)""[^""]*""", @"\1****"),
    Rule(@"(NEO4J_PASSWORD=|DB_PASSWORD=|POSTGRES_PASSWORD=)""[^""]*""", @"\1****"),
    Rule(@"(password=|pwd=|pass=)'[^']*'", @"\1****"),
    Rule(@"(token=|api_key=|apikey=|secret=)'[^']*'", @"\1****"),
    Rule(@"(NEO4J_PASSWORD=|DB_PASSWORD=|POSTGRES_PASSWORD=)'[^']*'", @"\1****"),
    Rule(@"(password=|pwd=|pass=)\S+", @"\1****"),
    Rule(@"(token=|api_key=|apikey=|secret=)\S+", @"\1****"),
    Rule(@"(NEO4J_PASSWORD=|DB_PASSWORD=|POSTGRES_PASSWORD=)\S+", @"\1****"),
    Rule(@"(://[^:]+:)([^@]+)(@)", @"\1****\3")
  ]

  /** re.sub(rule.pattern, rule.replacement, text, flags=re.IGNORECASE); the regular
      expression engine is not part of this model. */
  type RegexSub = (Rule, string) -> string

  // ---------------------------------------------------------------------------
  // The flag-and-unquoted-value rule, token by token.

  /** The alternatives of the group (-p|--password|--pass|--pwd), in the order the
      regular expression engine tries them. */
  const Flags: seq<string> := ["-p", "--password", "--pass", "--pwd"]

  /** The number of whitespace characters starting at j (`\s+` is greedy). */
  function SpaceRun(s: string, j: nat): (n: nat)
    requires j <= |s|
    ensures j + n <= |s|
    decreases |s| - j
  {
    if j < |s| && IsSpace(s[j]) then 1 + SpaceRun(s, j + 1) else 0
  }

  /** The number of non-whitespace characters starting at j (`\S+` is greedy). */
  function TokenRun(s: string, j: nat): (n: nat)
    requires j <= |s|
    ensures j + n <= |s|
    decreases |s| - j
  {
    if j < |s| && !IsSpace(s[j]) then 1 + TokenRun(s, j + 1) else 0
  }

  /** Flag f is written at i, in any case. */
  predicate WrittenAt(s: string, i: nat, f: string) {
    i + |f| <= |s| && Lower(s[i..i + |f|]) == f
  }

  /** Whether one of `flags`, tried in order, starts a match at i: returns the length of
      the flag that matched and where the match ends. */
  function MatchAt(s: string, i: nat, flags: seq<string>): (m: Option<(nat, nat)>)
    requires i <= |s|
    ensures m.Some? ==> i + m.value.0 < m.value.1 <= |s|
  {
    if flags == [] then None
    else
      var f := flags[0];
      if WrittenAt(s, i, f) then
        var ws := SpaceRun(s, i + |f|);
        var tok := TokenRun(s, i + |f| + ws);
        if ws > 0 && tok > 0 then Some((|f|, i + |f| + ws + tok)) else MatchAt(s, i, flags[1..])
      else MatchAt(s, i, flags[1..])
  }

  /** re.sub scanning from position i: at the leftmost match, keep the flag as typed,
      put " ****" in place of the whitespace and the value, and go on after the match. */
  function SubFrom(s: string, i: nat): string
    requires i <= |s|
    decreases |s| - i
  {
    if i == |s| then []
    else match MatchAt(s, i, Flags)
      case Some((n, end)) => s[i..i + n] + " ****" + SubFrom(s, end)
      case None => [s[i]] + SubFrom(s, i + 1)
  }

  /** The third rule, `(-p|--password|--pass|--pwd)\s+\S+` replaced by `\1 ****`. */
  function MaskFlagValues(s: string): string {
    SubFrom(s, 0)
  }

  // ---------------------------------------------------------------------------
  // The fold.

  /** One substitution pass. */
  function ApplyRule(sub: RegexSub, r: Rule, s: string): string {
    if r == FlagValueRule then MaskFlagValues(s) else sub(r, s)
  }

  /** The passes of `rules` applied left to right, starting from s. */
  function ApplyRules(sub: RegexSub, rules: seq<Rule>, s: string): string {
    if rules == [] then s else ApplyRule(sub, rules[|rules| - 1], ApplyRules(sub, rules[..|rules| - 1], s))
  }

  /** _obfuscate_secrets: every rule in list order, then rstrip(). */
  method ObfuscateSecrets(sub: RegexSub, command: string) returns (r: string)
    ensures r == RStrip(ApplyRules(sub, Rules, command))
    ensures r == [] || !IsSpace(r[|r| - 1])
    ensures (forall x :: x in Rules ==> ApplyRule(sub, x, command) == command) ==> r == RStrip(command)
  {
    var obfuscated := command;
    for k := 0 to |Rules|
      invariant obfuscated == ApplyRules(sub, Rules[..k], command)
    {
      assert Rules[..k + 1][..k] == Rules[..k];
      obfuscated := ApplyRule(sub, Rules[k], obfuscated);
    }
    assert Rules[..|Rules|] == Rules;
    if forall x :: x in Rules ==> ApplyRule(sub, x, command) == command {
      ApplyRulesUnchanged(sub, Rules, command);
    }
    r := RStrip(obfuscated);
  }

  /** Applying a list of passes and then another is applying the concatenated list. */
  lemma {:induction false} ApplyRulesConcat(sub: RegexSub, a: seq<Rule>, b: seq<Rule>, s: string)
    ensures ApplyRules(sub, a + b, s) == ApplyRules(sub, b, ApplyRules(sub, a, s))
  {
    if b == [] {
      assert a + b == a;
    } else {
      var init := b[..|b| - 1];
      assert (a + b)[..|a + b| - 1] == a + init;
      assert (a + b)[|a + b| - 1] == b[|b| - 1];
      ApplyRulesConcat(sub, a, init, s);
    }
  }

  /** A list of one pass is that pass. */
  lemma ApplySingle(sub: RegexSub, r: Rule, s: string)
    ensures ApplyRules(sub, [r], s) == ApplyRule(sub, r, s)
  {
    assert [r][..0] == [];
  }

  /** The obfuscation is the two quoted-flag passes, then the flag-and-value pass, then the
      ten remaining passes. */
  lemma {:induction false} FlagValuePassInPlace(sub: RegexSub, s: string)
    ensures ApplyRules(sub, Rules, s) ==
      ApplyRules(sub, Rules[3..], MaskFlagValues(ApplyRules(sub, Rules[..2], s)))
  {
    assert Rules == Rules[..2] + [Rules[2]] + Rules[3..];
    ApplyRulesConcat(sub, Rules[..2] + [Rules[2]], Rules[3..], s);
    ApplyRulesConcat(sub, Rules[..2], [Rules[2]], s);
    ApplySingle(sub, Rules[2], ApplyRules(sub, Rules[..2], s));
  }

  /** When no pass changes the text, neither does the whole list. */
  lemma {:induction false} ApplyRulesUnchanged(sub: RegexSub, rules: seq<Rule>, s: string)
    requires forall x :: x in rules ==> ApplyRule(sub, x, s) == s
    ensures ApplyRules(sub, rules, s) == s
  {
    if rules != [] {
      var init := rules[..|rules| - 1];
      assert forall x :: x in init ==> x in rules;
      ApplyRulesUnchanged(sub, init, s);
      assert rules[|rules| - 1] in rules;
    }
  }

  /** A position that does not hold '-' cannot start a match of flags that begin with it. */
  lemma {:induction false} NoMatchWithoutDash(s: string, i: nat, flags: seq<string>)
    requires i < |s| && s[i] != '-'
    requires forall f :: f in flags ==> f != [] && f[0] == '-'
    ensures MatchAt(s, i, flags) == None
  {
    if flags != [] {
      var f := flags[0];
      assert f in flags;
      if i + |f| <= |s| {
        assert Lower(s[i..i + |f|])[0] == LowerChar(s[i]) != '-';
      }
      assert forall g :: g in flags[1..] ==> g in flags;
      NoMatchWithoutDash(s, i, flags[1..]);
    }
  }

  /** Where no flag matches, re.sub copies one character and moves on. */
  lemma SubFromNoMatch(s: string, i: nat)
    requires i < |s| && MatchAt(s, i, Flags) == None
    ensures SubFrom(s, i) == [s[i]] + SubFrom(s, i + 1)
  {
  }

  /** Where a flag matches, re.sub keeps the flag, writes " ****" and resumes after the match. */
  lemma SubFromMatch(s: string, i: nat, n: nat, end: nat)
    requires i < |s| && MatchAt(s, i, Flags) == Some((n, end))
    ensures i + n < end <= |s|
    ensures SubFrom(s, i) == s[i..i + n] + " ****" + SubFrom(s, end)
  {
  }

  /** Prepending the character before a stretch extends the stretch. */
  lemma SeqStep(s: string, i: nat, j: nat, a: string, b: string)
    requires i < j <= |s|
    requires a == s[i + 1..j] + b
    ensures [s[i]] + a == s[i..j] + b
  {
    assert s[i..j] == [s[i]] + s[i + 1..j];
  }

  /** A stretch without '-' is copied through unchanged up to position j. */
  lemma {:induction false} SkipWithoutDash(s: string, i: nat, j: nat)
    requires i <= j <= |s|
    requires forall m :: i <= m < j ==> s[m] != '-'
    ensures SubFrom(s, i) == s[i..j] + SubFrom(s, j)
    decreases j - i
  {
    if i < j {
      NoMatchWithoutDash(s, i, Flags);
      SubFromNoMatch(s, i);
      SkipWithoutDash(s, i + 1, j);
      SeqStep(s, i, j, SubFrom(s, i + 1), SubFrom(s, j));
    }
  }

  /** Text without a '-' passes through the third rule unchanged. */
  lemma MaskWithoutDash(s: string)
    requires '-' !in s
    ensures MaskFlagValues(s) == s
  {
    SkipWithoutDash(s, 0, |s|);
  }

  /** The first flag of the list, written at i and followed by whitespace and a value,
      is the match. */
  lemma TakeFlag(s: string, i: nat, flags: seq<string>)
    requires flags != [] && WrittenAt(s, i, flags[0])
    requires SpaceRun(s, i + |flags[0]|) > 0
    requires TokenRun(s, i + |flags[0]| + SpaceRun(s, i + |flags[0]|)) > 0
    ensures MatchAt(s, i, flags) ==
      Some((|flags[0]|, i + |flags[0]| + SpaceRun(s, i + |flags[0]|)
                       + TokenRun(s, i + |flags[0]| + SpaceRun(s, i + |flags[0]|))))
  {
  }

  /** The match at i is that of the first flag of the list written there and followed
      by whitespace and a value. */
  lemma {:induction false} FirstWrittenMatches(s: string, i: nat, flags: seq<string>, k: nat)
    requires k < |flags| && WrittenAt(s, i, flags[k])
    requires forall j :: 0 <= j < k ==> !WrittenAt(s, i, flags[j])
    requires SpaceRun(s, i + |flags[k]|) > 0
    requires TokenRun(s, i + |flags[k]| + SpaceRun(s, i + |flags[k]|)) > 0
    ensures MatchAt(s, i, flags) ==
      Some((|flags[k]|, i + |flags[k]| + SpaceRun(s, i + |flags[k]|)
                       + TokenRun(s, i + |flags[k]| + SpaceRun(s, i + |flags[k]|))))
  {
    if k == 0 {
      TakeFlag(s, i, flags);
    } else {
      assert !WrittenAt(s, i, flags[0]);
      assert flags[1..][k - 1] == flags[k];
      assert forall j :: 0 <= j < k - 1 ==> flags[1..][j] == flags[j + 1];
      FirstWrittenMatches(s, i, flags[1..], k - 1);
    }
  }

  /** Lower-casing a stretch of s reads s one character at a time. */
  lemma LowerAt(s: string, i: nat, n: nat, m: nat)
    requires m < n && i + n <= |s|
    ensures Lower(s[i..i + n])[m] == LowerChar(s[i + m])
  {
  }

  /** When the k-th flag is written at i and followed by whitespace, no flag listed
      before it is written at i. */
  lemma EarlierFlagAbsent(s: string, i: nat, k: nat, j: nat)
    requires j < k < |Flags|
    requires WrittenAt(s, i, Flags[k])
    requires i + |Flags[k]| < |s| && IsSpace(s[i + |Flags[k]|])
    ensures !WrittenAt(s, i, Flags[j])
  {
    var n := |Flags[k]|;
    if j == 0 {
      // every later flag starts with "--", and "-p" does not
      LowerAt(s, i, n, 1);
      LowerAt(s, i, 2, 1);
    } else if j == 1 && k == 2 {
      // "--pass" is followed by whitespace where "--password" has 'w'
      if i + 10 <= |s| {
        LowerAt(s, i, 10, 6);
      }
    } else {
      // "--pwd" has 'w' where "--password" and "--pass" have 'a'
      LowerAt(s, i, n, 3);
      if i + |Flags[j]| <= |s| {
        LowerAt(s, i, |Flags[j]|, 3);
      }
    }
  }

  /** EarlierFlagAbsent for every flag listed before the k-th. */
  lemma EarlierFlagsAbsent(s: string, i: nat, k: nat)
    requires k < |Flags|
    requires WrittenAt(s, i, Flags[k])
    requires i + |Flags[k]| < |s| && IsSpace(s[i + |Flags[k]|])
    ensures forall j :: 0 <= j < k ==> !WrittenAt(s, i, Flags[j])
  {
    forall j | 0 <= j < k
      ensures !WrittenAt(s, i, Flags[j])
    {
      EarlierFlagAbsent(s, i, k, j);
    }
  }

  /** When the k-th flag is written at i (in any case) and followed by whitespace and a
      value, the alternatives before it do not match there, so the match is that flag's. */
  lemma FirstFlagMatches(s: string, i: nat, k: nat)
    requires k < |Flags| && WrittenAt(s, i, Flags[k])
    requires SpaceRun(s, i + |Flags[k]|) > 0
    requires TokenRun(s, i + |Flags[k]| + SpaceRun(s, i + |Flags[k]|)) > 0
    ensures MatchAt(s, i, Flags) ==
      Some((|Flags[k]|, i + |Flags[k]| + SpaceRun(s, i + |Flags[k]|)
                       + TokenRun(s, i + |Flags[k]| + SpaceRun(s, i + |Flags[k]|))))
  {
    SpaceRunStarts(s, i + |Flags[k]|);
    EarlierFlagsAbsent(s, i, k);
    FirstWrittenMatches(s, i, Flags, k);
  }

  /** A whitespace run that is not empty starts with whitespace. */
  lemma SpaceRunStarts(s: string, j: nat)
    requires j <= |s| && SpaceRun(s, j) > 0
    ensures j < |s| && IsSpace(s[j])
  {
  }

  /** A single match at i, with no '-' before it or after it, is the only change. */
  lemma MaskAround(s: string, i: nat, n: nat, e: nat)
    requires i < |s| && MatchAt(s, i, Flags) == Some((n, e))
    requires forall m :: 0 <= m < i ==> s[m] != '-'
    requires forall m :: e <= m < |s| ==> s[m] != '-'
    ensures MaskFlagValues(s) == s[..i] + (s[i..i + n] + " ****" + s[e..])
  {
    SkipWithoutDash(s, 0, i);
    SubFromMatch(s, i, n, e);
    SkipWithoutDash(s, e, |s|);
    Assemble(s, i, n, e, SubFrom(s, 0), SubFrom(s, i), SubFrom(s, e), SubFrom(s, |s|));
  }

  /** The sequence arithmetic behind MaskAround. */
  lemma Assemble(s: string, i: nat, n: nat, e: nat, x0: string, x1: string, x2: string, x3: string)
    requires i + n <= e <= |s|
    requires x0 == s[0..i] + x1 && x1 == s[i..i + n] + " ****" + x2
    requires x2 == s[e..|s|] + x3 && x3 == []
    ensures x0 == s[..i] + (s[i..i + n] + " ****" + s[e..])
  {
    assert s[0..i] == s[..i] && s[e..|s|] == s[e..];
  }

  /** Where the k-th flag is written at i in any case, followed by whitespace up to b and a
      value up to e (the end of the text or whitespace), and there is no '-' before the flag
      or after the value: the flag is kept as typed, the whitespace and the value become
      " ****", and nothing else changes. */
  lemma FlagValueMasked(s: string, i: nat, k: nat, b: nat, e: nat)
    requires k < |Flags| && i + |Flags[k]| < b < e <= |s|
    requires WrittenAt(s, i, Flags[k])
    requires forall m :: i + |Flags[k]| <= m < b ==> IsSpace(s[m])
    requires forall m :: b <= m < e ==> !IsSpace(s[m])
    requires e < |s| ==> IsSpace(s[e])
    requires forall m :: 0 <= m < i ==> s[m] != '-'
    requires forall m :: e <= m < |s| ==> s[m] != '-'
    ensures MaskFlagValues(s) == s[..i] + (s[i..i + |Flags[k]|] + " ****" + s[e..])
  {
    var a := i + |Flags[k]|;
    SpaceRunExact(s, a, b);
    TokenRunExact(s, b, e);
    FirstFlagMatches(s, i, k);
    MaskAround(s, i, |Flags[k]|, e);
  }

  /** SpaceRun stops exactly at the end of a whitespace stretch. */
  lemma {:induction false} SpaceRunExact(s: string, j: nat, e: nat)
    requires j <= e <= |s|
    requires forall m :: j <= m < e ==> IsSpace(s[m])
    requires e < |s| ==> !IsSpace(s[e])
    ensures SpaceRun(s, j) == e - j
    decreases e - j
  {
    if j < e {
      SpaceRunExact(s, j + 1, e);
    }
  }

  /** TokenRun stops exactly at the end of a non-whitespace stretch. */
  lemma {:induction false} TokenRunExact(s: string, j: nat, e: nat)
    requires j <= e <= |s|
    requires forall m :: j <= m < e ==> !IsSpace(s[m])
    requires e < |s| ==> IsSpace(s[e])
    ensures TokenRun(s, j) == e - j
    decreases e - j
  {
    if j < e {
      TokenRunExact(s, j + 1, e);
    }
  }
}
