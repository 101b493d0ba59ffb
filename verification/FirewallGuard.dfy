/**
 * The verifier of the fail-closed mining guard, over the token lists of a saved filter
 * table, and the packets that an accepted table lets past the guard.
 */
module FirewallGuard {
  import opened Bytes
  import opened Common

  const GUARD_CHAIN := "ZECWEC-MINING-GUARD"
  const RETURN := "RETURN"
  const DROP := "DROP"

  type Rule = seq<string>

  /** The option names the guard grammar knows; `Module` stands for a match module. */
  datatype Name = Interface | Source | Protocol | Dport | Jump | Module

  type Values = map<Name, string>

  datatype Address = Address(version: nat, bits: nat)

  datatype Network = Network(version: nat, base: nat, prefixLen: nat) {
    function MaxPrefix(): nat {
      if version == 4 then 32 else 128
    }

    predicate ExactHost() {
      prefixLen == MaxPrefix()
    }

    predicate Contains(a: Address) {
      && a.version == version && prefixLen <= MaxPrefix()
      && a.bits / Pow2(MaxPrefix() - prefixLen) == base / Pow2(MaxPrefix() - prefixLen)
    }
  }

  /** How numbers and networks are read from text and written back. */
  datatype Readers = Readers(
    portOf: string -> Option<int>,
    portText: int -> string,
    networkOf: string -> Option<Network>,
    networkText: Network -> string)

  /** What is written is read back as the same value. */
  ghost predicate Coherent(rd: Readers) {
    && (forall p: int :: rd.portOf(rd.portText(p)) == Some(p))
    && (forall t: string :: rd.networkOf(t).Some? ==> rd.networkOf(rd.networkText(rd.networkOf(t).value)) == rd.networkOf(t))
  }

  datatype Mode = Open | Public | Closed

  datatype Policy = Policy(
    family: nat, mode: Mode, managed: set<int>, plain: int, tls: int, legacy: int, sources: set<string>)
  {
    function Loopback(): string {
      if family == 4 then "127.0.0.1/32" else "::1/128"
    }

    /** The source and port pairs an open policy lets through. */
    function Expected(): set<(string, int)> {
      if mode == Open then set s, p | s in sources && p in {plain, tls} :: (s, p) else {}
    }
  }

  // ---- Packet semantics -------------------------------------------------------------

  datatype Packet = Packet(interfaceName: string, source: Address, protocol: string, dport: int)

  function OptionName(token: string): Option<Name> {
    if token == "-i" then Some(Interface)
    else if token == "-s" then Some(Source)
    else if token == "-p" then Some(Protocol)
    else if token == "--dport" then Some(Dport)
    else if token == "-j" then Some(Jump)
    else if token == "-m" then Some(Module)
    else None
  }

  predicate Within(rd: Readers, text: string, a: Address) {
    rd.networkOf(text).Some? && rd.networkOf(text).value.Contains(a)
  }

  predicate OptionMatches(rd: Readers, name: Name, value: string, pkt: Packet) {
    match name
    case Interface => pkt.interfaceName == value
    case Source => Within(rd, value, pkt.source)
    case Protocol => pkt.protocol == value
    case Dport => pkt.protocol == "tcp" && rd.portOf(value) == Some(pkt.dport)
    case Jump => true
    case Module => true
  }

  /** A rule matches a packet when each of its options does; an unknown option matches nothing. */
  predicate RuleMatches(rd: Readers, options: seq<string>, pkt: Packet) {
    if options == [] then true
    else if |options| == 1 then false
    else
      && OptionName(options[0]).Some?
      && OptionMatches(rd, OptionName(options[0]).value, options[1], pkt)
      && RuleMatches(rd, options[2..], pkt)
  }

  function Target(options: seq<string>): Option<string> {
    if |options| < 2 then None
    else if OptionName(options[0]) == Some(Jump) then Some(options[1])
    else Target(options[2..])
  }

  datatype Verdict = NoMatch | Dropped | Returned | Elsewhere

  /** The target of the first rule that matches decides. */
  function FirstMatch(rd: Readers, chain: seq<Rule>, pkt: Packet): Verdict {
    if chain == [] then NoMatch
    else if |chain[0]| >= 2 && RuleMatches(rd, chain[0][2..], pkt) then
      var target := Target(chain[0][2..]);
      if target == Some(DROP) then Dropped else if target == Some(RETURN) then Returned else Elsewhere
    else FirstMatch(rd, chain[1..], pkt)
  }

  predicate OnChain(rule: Rule, name: string) {
    |rule| >= 2 && rule[0] == "-A" && rule[1] == name
  }

  function Chain(rules: seq<Rule>, name: string): (c: seq<Rule>)
    ensures forall r :: r in c ==> OnChain(r, name)
  {
    if rules == [] then []
    else (if OnChain(rules[0], name) then [rules[0]] else []) + Chain(rules[1..], name)
  }

  /**
   * Whether INPUT drops a packet. A jump to the guard drops what the guard drops and
   * hands the rest to the later rules, whose decision (with the chain policy) is `later`.
   */
  predicate InputDrops(rd: Readers, rules: seq<Rule>, pkt: Packet, later: seq<Rule> -> bool) {
    var input := Chain(rules, "INPUT");
    if input != [] && (assert input[0] in input; RuleMatches(rd, input[0][2..], pkt)) && Target(input[0][2..]) == Some(GUARD_CHAIN) then
      FirstMatch(rd, Chain(rules, GUARD_CHAIN), pkt) == Dropped || later(input[1..])
    else later(input)
  }

  predicate Guarded(policy: Policy, pkt: Packet) {
    pkt.protocol == "tcp" && pkt.dport in {policy.plain, policy.tls, policy.legacy}
  }

  /** The packets the policy approves, per mode. */
  predicate Approved(rd: Readers, policy: Policy, pkt: Packet) {
    match policy.mode
    case Closed => false
    case Public => pkt.dport == policy.plain || pkt.dport == policy.tls
    case Open =>
      || (pkt.dport in {policy.plain, policy.tls} && exists s :: s in policy.sources && Within(rd, s, pkt.source))
      || (pkt.dport == policy.plain && pkt.interfaceName == "lo" && Within(rd, policy.Loopback(), pkt.source))
  }

  // ---- The verifier -------------------------------------------------------------------

  /** Options from some point on, added to what was already read; `None` on any surprise. */
  function ParseOptions(options: seq<string>, values: Values): (r: Option<Values>)
    decreases |options|
  {
    if options == [] then Some(values)
    else
      var name := OptionName(options[0]);
      if name.None? || |options| < 2 || name.value in values then None
      else if name.value == Module && options[1] != "tcp" then None
      else ParseOptions(options[2..], values[name.value := options[1]])
  }

  function ParsedRule(rule: Rule): (r: Option<Values>) {
    if |rule| < 4 || !OnChain(rule, GUARD_CHAIN) then None else ParseOptions(rule[2..], map[])
  }

  method ParseGuardRule(rule: Rule) returns (r: Option<Values>)
    ensures r == ParsedRule(rule)
  {
    if |rule| < 4 || !OnChain(rule, GUARD_CHAIN) {
      return None;
    }
    var values: Values := map[];
    var index := 2;
    while index < |rule|
      invariant 2 <= index <= |rule|
      invariant ParseOptions(rule[index..], values) == ParsedRule(rule)
    {
      var name := rule[index];
      assert rule[index..][0] == name;
      if name == "-m" {
        if index + 1 >= |rule| || rule[index + 1] != "tcp" || Module in values {
          return None;
        }
        assert rule[index..][2..] == rule[index + 2..];
        values := values[Module := "tcp"];
        index := index + 2;
        continue;
      }
      var known := OptionName(name);
      if known.None? || known.value in values || index + 1 >= |rule| {
        return None;
      }
      assert rule[index..][2..] == rule[index + 2..];
      values := values[known.value := rule[index + 1]];
      index := index + 2;
    }
    assert rule[index..] == [];
    return Some(values);
  }

  function LoopbackRule(rd: Readers, policy: Policy): Values {
    map[Interface := "lo", Source := policy.Loopback(), Protocol := "tcp", Module := "tcp",
        Dport := rd.portText(policy.plain), Jump := RETURN]
  }

  function PublicRule(rd: Readers, port: int): Values {
    map[Protocol := "tcp", Module := "tcp", Dport := rd.portText(port), Jump := RETURN]
  }

  /** The host and port that one exact source exception admits. */
  function HostKey(rd: Readers, family: nat, rule: Rule): (key: Option<(string, int)>) {
    var parsed := ParsedRule(rule);
    if parsed.None? then None
    else
      var values := parsed.value;
      if values.Keys != {Source, Protocol, Module, Dport, Jump} then None
      else if values[Protocol] != "tcp" || values[Module] != "tcp" || values[Jump] != RETURN then None
      else
        var network, port := rd.networkOf(values[Source]), rd.portOf(values[Dport]);
        if network.None? || port.None? then None
        else if network.value.version != family || !network.value.ExactHost() then None
        else Some((rd.networkText(network.value), port.value))
  }

  /** Source exceptions name each expected pair exactly once and nothing else. */
  ghost predicate HostRulesExact(rd: Readers, policy: Policy, rules: seq<Rule>) {
    && (forall i :: 0 <= i < |rules| ==>
          HostKey(rd, policy.family, rules[i]).Some? && HostKey(rd, policy.family, rules[i]).value in policy.Expected())
    && (forall i, j :: 0 <= i < j < |rules| ==> HostKey(rd, policy.family, rules[i]) != HostKey(rd, policy.family, rules[j]))
    && (forall key :: key in policy.Expected() ==>
          exists i :: 0 <= i < |rules| && HostKey(rd, policy.family, rules[i]) == Some(key))
  }

  ghost predicate ExceptionsExact(rd: Readers, policy: Policy, rules: seq<Rule>) {
    match policy.mode
    case Closed => HostRulesExact(rd, policy, rules)
    case Open => rules != [] && ParsedRule(rules[0]) == Some(LoopbackRule(rd, policy)) && HostRulesExact(rd, policy, rules[1..])
    case Public =>
      && |rules| == 2
      && ParsedRule(rules[0]) == Some(PublicRule(rd, policy.plain)) && ParsedRule(rules[1]) == Some(PublicRule(rd, policy.tls))
  }

  predicate DropExact(rd: Readers, policy: Policy, rule: Rule, port: int) {
    var parsed := ParsedRule(rule);
    && parsed.Some? && parsed.value.Keys == {Protocol, Module, Dport, Jump}
    && parsed.value[Protocol] == "tcp" && parsed.value[Module] == "tcp" && parsed.value[Jump] == DROP
    && rd.portOf(parsed.value[Dport]) == Some(port) && port in policy.managed
  }

  ghost predicate GuardExact(rd: Readers, policy: Policy, guard: seq<Rule>) {
    var n := |guard| - 4;
    && n >= 0
    && ExceptionsExact(rd, policy, guard[..n])
    && DropExact(rd, policy, guard[n], policy.plain)
    && DropExact(rd, policy, guard[n + 1], policy.tls)
    && DropExact(rd, policy, guard[n + 2], policy.legacy)
    && ParsedRule(guard[n + 3]) == Some(map[Jump := RETURN])
  }

  /** The value after the first occurrence of a token; a token with no value is an error. */
  function OptionValue(rule: Rule, name: string): (r: Result<Option<string>, ()>) {
    if rule == [] then Success(None)
    else if rule[0] != name then OptionValue(rule[1..], name)
    else if |rule| == 1 then Failure(())
    else Success(Some(rule[1]))
  }

  /** Whether a rule outside the guard transfers control to it. */
  function Refers(rule: Rule): (r: Result<bool, ()>) {
    if OnChain(rule, GUARD_CHAIN) then Success(false)
    else
      var jump := OptionValue(rule, "-j");
      if jump.Failure? then Failure(())
      else if jump.value == Some(GUARD_CHAIN) then Success(true)
      else
        var goto := OptionValue(rule, "-g");
        if goto.Failure? then Failure(()) else Success(goto.value == Some(GUARD_CHAIN))
  }

  function References(rules: seq<Rule>): (r: Result<seq<Rule>, ()>) {
    if rules == [] then Success([])
    else
      var first, rest := Refers(rules[0]), References(rules[1..]);
      if first.Failure? || rest.Failure? then Failure(())
      else Success((if first.value then [rules[0]] else []) + rest.value)
  }

  const EXACT_HOOK: Rule := ["-A", "INPUT", "-j", GUARD_CHAIN]

  ghost predicate TableExact(rd: Readers, policy: Policy, policies: map<string, string>, rules: seq<Rule>) {
    && "INPUT" in policies && policies["INPUT"] == DROP
    && GUARD_CHAIN in policies && policies[GUARD_CHAIN] == "-"
    && Chain(rules, "INPUT") != [] && Chain(rules, "INPUT")[0] == EXACT_HOOK
    && References(rules) == Success([EXACT_HOOK])
    && GuardExact(rd, policy, Chain(rules, GUARD_CHAIN))
  }

  method VerifyHostRules(rd: Readers, policy: Policy, rules: seq<Rule>) returns (accepted: bool)
    ensures accepted <==> HostRulesExact(rd, policy, rules)
  {
    hide HostKey, HostRulesExact;
    var expected := policy.Expected();
    ghost var keys := seq(|rules|, i requires 0 <= i < |rules| => HostKey(rd, policy.family, rules[i]));
    var seen: set<(string, int)> := {};
    for n := 0 to |rules|
      invariant SeenSoFar(keys[..n], expected, seen)
    {
      var key := HostKey(rd, policy.family, rules[n]);
      assert keys[n] == key && keys[..n + 1] == keys[..n] + [key];
      if key.None? || key.value !in expected || key.value in seen {
        SurplusKey(rd, policy, rules, keys, n, seen);
        return false;
      }
      seen := seen + {key.value};
    }
    accepted := seen == expected;
    assert keys[..|rules|] == keys;
    SeenAll(rd, policy, rules, keys, seen);
  }

  /** The pairs read so far are expected, distinct, and the ones recorded as seen. */
  ghost predicate SeenSoFar(keys: seq<Option<(string, int)>>, expected: set<(string, int)>, seen: set<(string, int)>) {
    && (forall i :: 0 <= i < |keys| ==> keys[i].Some? && keys[i].value in expected && keys[i].value in seen)
    && (forall i, j :: 0 <= i < j < |keys| ==> keys[i] != keys[j])
    && (forall key :: key in seen ==> Some(key) in keys)
  }

  lemma SurplusKey(rd: Readers, policy: Policy, rules: seq<Rule>, keys: seq<Option<(string, int)>>, n: nat, seen: set<(string, int)>)
    requires |keys| == |rules| && n < |rules| && forall i :: 0 <= i < |rules| ==> keys[i] == HostKey(rd, policy.family, rules[i])
    requires SeenSoFar(keys[..n], policy.Expected(), seen)
    requires keys[n].None? || keys[n].value !in policy.Expected() || keys[n].value in seen
    ensures !HostRulesExact(rd, policy, rules)
  {
    if keys[n].Some? && keys[n].value in seen {
      var i :| 0 <= i < n && keys[..n][i] == keys[n];
      assert HostKey(rd, policy.family, rules[i]) == HostKey(rd, policy.family, rules[n]);
    }
  }

  lemma SeenAll(rd: Readers, policy: Policy, rules: seq<Rule>, keys: seq<Option<(string, int)>>, seen: set<(string, int)>)
    requires |keys| == |rules| && forall i :: 0 <= i < |rules| ==> keys[i] == HostKey(rd, policy.family, rules[i])
    requires SeenSoFar(keys, policy.Expected(), seen)
    ensures seen == policy.Expected() <==> HostRulesExact(rd, policy, rules)
  {
    if seen == policy.Expected() {
      forall key | key in policy.Expected()
        ensures exists i :: 0 <= i < |rules| && HostKey(rd, policy.family, rules[i]) == Some(key)
      {
        var i :| 0 <= i < |keys| && keys[i] == Some(key);
      }
    }
    if HostRulesExact(rd, policy, rules) {
      forall key ensures key in seen <==> key in policy.Expected() {
        if key in policy.Expected() {
          var i :| 0 <= i < |rules| && HostKey(rd, policy.family, rules[i]) == Some(key);
          assert keys[i] == Some(key);
        }
        if key in seen {
          var i :| 0 <= i < |keys| && keys[i] == Some(key);
        }
      }
    }
  }

  method VerifyExceptions(rd: Readers, policy: Policy, rules: seq<Rule>) returns (accepted: bool)
    ensures accepted <==> ExceptionsExact(rd, policy, rules)
  {
    if policy.mode == Open {
      if rules == [] {
        return false;
      }
      var loopback := ParseGuardRule(rules[0]);
      if loopback != Some(LoopbackRule(rd, policy)) {
        return false;
      }
      accepted := VerifyHostRules(rd, policy, rules[1..]);
    } else if policy.mode == Public {
      if |rules| != 2 {
        return false;
      }
      var ports := [policy.plain, policy.tls];
      for k := 0 to 2
        invariant forall i :: 0 <= i < k ==> ParsedRule(rules[i]) == Some(PublicRule(rd, ports[i]))
      {
        var values := ParseGuardRule(rules[k]);
        if values != Some(PublicRule(rd, ports[k])) {
          return false;
        }
      }
      return true;
    } else {
      accepted := VerifyHostRules(rd, policy, rules);
    }
  }

  method VerifyDrops(rd: Readers, policy: Policy, rules: seq<Rule>) returns (accepted: bool)
    requires |rules| == 3
    ensures accepted <==> DropExact(rd, policy, rules[0], policy.plain) && DropExact(rd, policy, rules[1], policy.tls)
                          && DropExact(rd, policy, rules[2], policy.legacy)
  {
    var ports := [policy.plain, policy.tls, policy.legacy];
    for k := 0 to 3
      invariant forall i :: 0 <= i < k ==> DropExact(rd, policy, rules[i], ports[i])
    {
      var values := ParseGuardRule(rules[k]);
      if values.None? || values.value.Keys != {Protocol, Module, Dport, Jump} {
        return false;
      }
      var port := rd.portOf(values.value[Dport]);
      if port.None? || values.value[Protocol] != "tcp" || values.value[Module] != "tcp" || values.value[Jump] != DROP
         || port.value != ports[k] || port.value !in policy.managed
      {
        return false;
      }
    }
    return true;
  }

  /** Accepts exactly the tables of the prescribed form. */
  method VerifyGuard(rd: Readers, policy: Policy, policies: map<string, string>, rules: seq<Rule>) returns (accepted: bool)
    ensures accepted <==> TableExact(rd, policy, policies, rules)
  {
    if "INPUT" !in policies || policies["INPUT"] != DROP || GUARD_CHAIN !in policies || policies[GUARD_CHAIN] != "-" {
      return false;
    }
    var input := Chain(rules, "INPUT");
    if input == [] || input[0] != EXACT_HOOK || References(rules) != Success([EXACT_HOOK]) {
      return false;
    }
    var guard := Chain(rules, GUARD_CHAIN);
    if |guard| < 4 {
      return false;
    }
    var n := |guard| - 4;
    var exceptions := VerifyExceptions(rd, policy, guard[..n]);
    if !exceptions {
      return false;
    }
    var three := guard[n..n + 3];
    assert three[0] == guard[n] && three[1] == guard[n + 1] && three[2] == guard[n + 2];
    var drops := VerifyDrops(rd, policy, three);
    if !drops {
      return false;
    }
    var final := ParseGuardRule(guard[n + 3]);
    accepted := final == Some(map[Jump := RETURN]);
  }

  // ---- Accepted tables drop exactly the unapproved packets ----------------------------

  predicate ValuesMatch(rd: Readers, values: Values, pkt: Packet) {
    forall name :: name in values ==> OptionMatches(rd, name, values[name], pkt)
  }

  /** Reading options one by one loses nothing of what they match or where they jump. */
  lemma {:induction false} ParseKeepsMeaning(rd: Readers, options: seq<string>, values: Values, pkt: Packet)
    requires ParseOptions(options, values).Some?
    ensures var all := ParseOptions(options, values).value;
            && (ValuesMatch(rd, all, pkt) <==> ValuesMatch(rd, values, pkt) && RuleMatches(rd, options, pkt))
            && (forall name :: name in values ==> name in all && all[name] == values[name])
            && (Jump !in values && Jump in all ==> Target(options) == Some(all[Jump]))
    decreases |options|
  {
    if options == [] {
    } else {
      var name := OptionName(options[0]).value;
      var more := values[name := options[1]];
      ParseKeepsMeaning(rd, options[2..], more, pkt);
      assert ValuesMatch(rd, more, pkt) <==> ValuesMatch(rd, values, pkt) && OptionMatches(rd, name, options[1], pkt) by {
        assert more[name] == options[1];
        assert forall other :: other in values ==> other in more && other != name && more[other] == values[other];
        assert forall other :: other in more ==> other == name || other in values;
      }
    }
  }

  lemma RuleMeaning(rd: Readers, rule: Rule, pkt: Packet)
    requires ParsedRule(rule).Some? && Jump in ParsedRule(rule).value
    ensures RuleMatches(rd, rule[2..], pkt) <==> ValuesMatch(rd, ParsedRule(rule).value, pkt)
    ensures Target(rule[2..]) == Some(ParsedRule(rule).value[Jump])
  {
    ParseKeepsMeaning(rd, rule[2..], map[], pkt);
  }

  lemma {:induction false} FirstMatchConcat(rd: Readers, a: seq<Rule>, b: seq<Rule>, pkt: Packet)
    ensures FirstMatch(rd, a + b, pkt) == if FirstMatch(rd, a, pkt) == NoMatch then FirstMatch(rd, b, pkt) else FirstMatch(rd, a, pkt)
  {
    if a == [] {
      assert a + b == b;
    } else {
      FirstMatchConcat(rd, a[1..], b, pkt);
      assert (a + b)[1..] == a[1..] + b;
    }
  }

  /** One rule on its own. */
  lemma Single(rd: Readers, rule: Rule, pkt: Packet)
    requires ParsedRule(rule).Some? && Jump in ParsedRule(rule).value && ParsedRule(rule).value[Jump] in {DROP, RETURN}
    ensures FirstMatch(rd, [rule], pkt) ==
            if !ValuesMatch(rd, ParsedRule(rule).value, pkt) then NoMatch
            else if ParsedRule(rule).value[Jump] == DROP then Dropped else Returned
  {
    RuleMeaning(rd, rule, pkt);
    assert [rule][1..] == [];
  }

  /** An exact source exception returns just the TCP packets of its host and port. */
  lemma HostRuleMeaning(rd: Readers, family: nat, rule: Rule, pkt: Packet)
    requires Coherent(rd) && HostKey(rd, family, rule).Some?
    ensures var key := HostKey(rd, family, rule).value;
            FirstMatch(rd, [rule], pkt) ==
            if pkt.protocol == "tcp" && pkt.dport == key.1 && Within(rd, key.0, pkt.source) then Returned else NoMatch
  {
    var values := ParsedRule(rule).value;
    assert values.Keys == {Source, Protocol, Module, Dport, Jump};
    assert Source in values && Protocol in values && Module in values && Dport in values && Jump in values;
    Single(rd, rule, pkt);
    assert ValuesMatch(rd, values, pkt) <==>
           OptionMatches(rd, Source, values[Source], pkt) && OptionMatches(rd, Protocol, values[Protocol], pkt)
           && OptionMatches(rd, Dport, values[Dport], pkt) by {
      assert forall name :: name in values ==> name in {Source, Protocol, Module, Dport, Jump};
    }
    assert rd.networkOf(HostKey(rd, family, rule).value.0) == rd.networkOf(values[Source]);
  }

  predicate HostHit(rd: Readers, family: nat, rules: seq<Rule>, pkt: Packet) {
    exists i :: 0 <= i < |rules| && HostKey(rd, family, rules[i]).Some?
             && HostKey(rd, family, rules[i]).value.1 == pkt.dport && Within(rd, HostKey(rd, family, rules[i]).value.0, pkt.source)
  }

  lemma {:induction false} HostRulesMeaning(rd: Readers, family: nat, rules: seq<Rule>, pkt: Packet)
    requires Coherent(rd) && forall i :: 0 <= i < |rules| ==> HostKey(rd, family, rules[i]).Some?
    ensures FirstMatch(rd, rules, pkt) == if pkt.protocol == "tcp" && HostHit(rd, family, rules, pkt) then Returned else NoMatch
  {
    if rules == [] {
    } else {
      var rest := rules[1..];
      HostRuleMeaning(rd, family, rules[0], pkt);
      HostRulesMeaning(rd, family, rest, pkt);
      FirstMatchConcat(rd, [rules[0]], rest, pkt);
      assert [rules[0]] + rest == rules;
      assert forall i :: 0 <= i < |rest| ==> rest[i] == rules[i + 1];
      var key := HostKey(rd, family, rules[0]).value;
      assert HostHit(rd, family, rules, pkt) <==>
             (key.1 == pkt.dport && Within(rd, key.0, pkt.source)) || HostHit(rd, family, rest, pkt) by {
        if HostHit(rd, family, rules, pkt) && !(key.1 == pkt.dport && Within(rd, key.0, pkt.source)) {
          var i :| 0 <= i < |rules| && HostKey(rd, family, rules[i]).Some?
            && HostKey(rd, family, rules[i]).value.1 == pkt.dport && Within(rd, HostKey(rd, family, rules[i]).value.0, pkt.source);
          assert rest[i - 1] == rules[i];
        }
      }
    }
  }

  /** Rules that name the expected pairs hit exactly the packets the pairs approve. */
  lemma HostRulesHit(rd: Readers, policy: Policy, rules: seq<Rule>, pkt: Packet)
    requires HostRulesExact(rd, policy, rules)
    ensures HostHit(rd, policy.family, rules, pkt) <==>
            policy.mode == Open && pkt.dport in {policy.plain, policy.tls}
            && exists s :: s in policy.sources && Within(rd, s, pkt.source)
  {
    if HostHit(rd, policy.family, rules, pkt) {
      var i :| 0 <= i < |rules| && HostKey(rd, policy.family, rules[i]).Some?
        && HostKey(rd, policy.family, rules[i]).value.1 == pkt.dport
        && Within(rd, HostKey(rd, policy.family, rules[i]).value.0, pkt.source);
      assert HostKey(rd, policy.family, rules[i]).value in policy.Expected();
    }
    if policy.mode == Open && pkt.dport in {policy.plain, policy.tls} && exists s :: s in policy.sources && Within(rd, s, pkt.source) {
      var s :| s in policy.sources && Within(rd, s, pkt.source);
      assert (s, pkt.dport) in policy.Expected();
      var i :| 0 <= i < |rules| && HostKey(rd, policy.family, rules[i]) == Some((s, pkt.dport));
    }
  }

  lemma LoopbackMeaning(rd: Readers, policy: Policy, rule: Rule, pkt: Packet)
    requires Coherent(rd) && ParsedRule(rule) == Some(LoopbackRule(rd, policy))
    ensures FirstMatch(rd, [rule], pkt) ==
            if pkt.protocol == "tcp" && pkt.dport == policy.plain && pkt.interfaceName == "lo" && Within(rd, policy.Loopback(), pkt.source)
            then Returned else NoMatch
  {
    var values := LoopbackRule(rd, policy);
    Single(rd, rule, pkt);
    assert ValuesMatch(rd, values, pkt) <==>
           OptionMatches(rd, Interface, "lo", pkt) && OptionMatches(rd, Source, policy.Loopback(), pkt)
           && OptionMatches(rd, Protocol, "tcp", pkt) && OptionMatches(rd, Dport, rd.portText(policy.plain), pkt) by {
      assert values[Interface] == "lo" && values[Source] == policy.Loopback() && values[Protocol] == "tcp"
          && values[Dport] == rd.portText(policy.plain);
    }
  }

  lemma PublicMeaning(rd: Readers, port: int, rule: Rule, pkt: Packet)
    requires Coherent(rd) && ParsedRule(rule) == Some(PublicRule(rd, port))
    ensures FirstMatch(rd, [rule], pkt) == if pkt.protocol == "tcp" && pkt.dport == port then Returned else NoMatch
  {
    var values := PublicRule(rd, port);
    Single(rd, rule, pkt);
    assert ValuesMatch(rd, values, pkt) <==>
           OptionMatches(rd, Protocol, "tcp", pkt) && OptionMatches(rd, Dport, rd.portText(port), pkt) by {
      assert values[Protocol] == "tcp" && values[Dport] == rd.portText(port);
    }
  }

  lemma DropMeaning(rd: Readers, policy: Policy, rule: Rule, port: int, pkt: Packet)
    requires DropExact(rd, policy, rule, port)
    ensures FirstMatch(rd, [rule], pkt) == if pkt.protocol == "tcp" && pkt.dport == port then Dropped else NoMatch
  {
    var values := ParsedRule(rule).value;
    assert values.Keys == {Protocol, Module, Dport, Jump};
    assert Protocol in values && Module in values && Dport in values && Jump in values;
    Single(rd, rule, pkt);
    assert ValuesMatch(rd, values, pkt) <==>
           OptionMatches(rd, Protocol, values[Protocol], pkt) && OptionMatches(rd, Dport, values[Dport], pkt) by {
      assert forall name :: name in values ==> name in {Protocol, Module, Dport, Jump};
    }
  }

  /** The exceptions return exactly the approved packets and decide nothing else. */
  lemma ExceptionsMeaning(rd: Readers, policy: Policy, rules: seq<Rule>, pkt: Packet)
    requires Coherent(rd) && ExceptionsExact(rd, policy, rules)
    ensures FirstMatch(rd, rules, pkt) == if pkt.protocol == "tcp" && Approved(rd, policy, pkt) then Returned else NoMatch
  {
    match policy.mode
    case Closed =>
      HostRulesHit(rd, policy, rules, pkt);
      HostRulesMeaning(rd, policy.family, rules, pkt);
    case Open =>
      LoopbackMeaning(rd, policy, rules[0], pkt);
      HostRulesHit(rd, policy, rules[1..], pkt);
      HostRulesMeaning(rd, policy.family, rules[1..], pkt);
      FirstMatchConcat(rd, [rules[0]], rules[1..], pkt);
      assert [rules[0]] + rules[1..] == rules;
    case Public =>
      PublicMeaning(rd, policy.plain, rules[0], pkt);
      PublicMeaning(rd, policy.tls, rules[1], pkt);
      FirstMatchConcat(rd, [rules[0]], [rules[1]], pkt);
      assert [rules[0]] + [rules[1]] == rules;
  }

  /** The three drops catch exactly the packets to the three ports. */
  lemma DropsMeaning(rd: Readers, policy: Policy, a: Rule, b: Rule, c: Rule, pkt: Packet)
    requires DropExact(rd, policy, a, policy.plain) && DropExact(rd, policy, b, policy.tls) && DropExact(rd, policy, c, policy.legacy)
    ensures FirstMatch(rd, [a, b, c], pkt) == if Guarded(policy, pkt) then Dropped else NoMatch
  {
    DropMeaning(rd, policy, a, policy.plain, pkt);
    DropMeaning(rd, policy, b, policy.tls, pkt);
    DropMeaning(rd, policy, c, policy.legacy, pkt);
    FirstMatchConcat(rd, [a], [b], pkt);
    FirstMatchConcat(rd, [a] + [b], [c], pkt);
    assert [a] + [b] + [c] == [a, b, c];
  }

  lemma FinalReturns(rd: Readers, rule: Rule, pkt: Packet)
    requires ParsedRule(rule) == Some(map[Jump := RETURN])
    ensures FirstMatch(rd, [rule], pkt) == Returned
  {
    Single(rd, rule, pkt);
  }

  lemma PartsMeaning(rd: Readers, policy: Policy, exceptions: seq<Rule>, a: Rule, b: Rule, c: Rule, final: Rule, pkt: Packet)
    requires Coherent(rd) && ExceptionsExact(rd, policy, exceptions) && ParsedRule(final) == Some(map[Jump := RETURN])
    requires DropExact(rd, policy, a, policy.plain) && DropExact(rd, policy, b, policy.tls) && DropExact(rd, policy, c, policy.legacy)
    ensures FirstMatch(rd, exceptions + [a, b, c] + [final], pkt)
         == if Guarded(policy, pkt) && !Approved(rd, policy, pkt) then Dropped else Returned
  {
    ExceptionsMeaning(rd, policy, exceptions, pkt);
    DropsMeaning(rd, policy, a, b, c, pkt);
    FinalReturns(rd, final, pkt);
    FirstMatchConcat(rd, exceptions, [a, b, c], pkt);
    FirstMatchConcat(rd, exceptions + [a, b, c], [final], pkt);
  }

  lemma GuardMeaning(rd: Readers, policy: Policy, guard: seq<Rule>, pkt: Packet)
    requires Coherent(rd) && GuardExact(rd, policy, guard)
    ensures FirstMatch(rd, guard, pkt) == if Guarded(policy, pkt) && !Approved(rd, policy, pkt) then Dropped else Returned
  {
    hide FirstMatch, ParsedRule, DropExact, ExceptionsExact, Approved, Guarded;
    var n := |guard| - 4;
    PartsMeaning(rd, policy, guard[..n], guard[n], guard[n + 1], guard[n + 2], guard[n + 3], pkt);
    assert guard[..n] + [guard[n], guard[n + 1], guard[n + 2]] + [guard[n + 3]] == guard;
  }

  lemma HookMatchesAll(rd: Readers, pkt: Packet)
    ensures RuleMatches(rd, EXACT_HOOK[2..], pkt) && Target(EXACT_HOOK[2..]) == Some(GUARD_CHAIN)
  {
    assert EXACT_HOOK[2..] == ["-j", GUARD_CHAIN];
    assert ["-j", GUARD_CHAIN][2..] == [];
  }

  /**
   * An accepted table drops, ahead of every other INPUT rule, exactly the TCP packets to
   * the three managed ports that the policy does not approve, and decides no other packet.
   */
  lemma AcceptedGuardFilters(rd: Readers, policy: Policy, policies: map<string, string>, rules: seq<Rule>, pkt: Packet,
                             later: seq<Rule> -> bool)
    requires Coherent(rd) && TableExact(rd, policy, policies, rules)
    ensures InputDrops(rd, rules, pkt, later) <==>
            (Guarded(policy, pkt) && !Approved(rd, policy, pkt)) || later(Chain(rules, "INPUT")[1..])
  {
    HookMatchesAll(rd, pkt);
    GuardMeaning(rd, policy, Chain(rules, GUARD_CHAIN), pkt);
  }

  // ---- What else an accepted table rules out -------------------------------------------

  /** The first occurrence of an option token is followed by `value`, or by nothing. */
  predicate Gives(rule: Rule, name: string, value: string) {
    exists k :: 0 <= k < |rule| - 1 && rule[k] == name && rule[k + 1] == value && name !in rule[..k]
  }

  predicate Dangles(rule: Rule, name: string) {
    |rule| > 0 && rule[|rule| - 1] == name && name !in rule[..|rule| - 1]
  }

  lemma {:induction false} OptionValueExactly(rule: Rule, name: string, value: string)
    ensures OptionValue(rule, name).Failure? <==> Dangles(rule, name)
    ensures OptionValue(rule, name) == Success(Some(value)) <==> Gives(rule, name, value)
    decreases |rule|
  {
    if rule == [] {
    } else if rule[0] == name {
      assert name !in rule[..0];
      assert forall k :: 0 < k < |rule| ==> rule[..k][0] == name;
    } else {
      var rest := rule[1..];
      OptionValueExactly(rest, name, value);
      assert forall k :: 0 <= k <= |rest| ==> rule[..k + 1] == [rule[0]] + rest[..k];
      if Gives(rest, name, value) {
        var k :| 0 <= k < |rest| - 1 && rest[k] == name && rest[k + 1] == value && name !in rest[..k];
        assert rule[k + 1] == name && rule[k + 2] == value && name !in rule[..k + 1];
      }
      if Gives(rule, name, value) {
        var k :| 0 <= k < |rule| - 1 && rule[k] == name && rule[k + 1] == value && name !in rule[..k];
        assert rest[k - 1] == name && rest[k] == value && rule[..k] == [rule[0]] + rest[..k - 1];
      }
    }
  }

  /** The rule hands packets to the guard, by jump or by goto. */
  predicate Transfers(rule: Rule) {
    Gives(rule, "-j", GUARD_CHAIN) || Gives(rule, "-g", GUARD_CHAIN)
  }

  lemma RefersExactly(rule: Rule)
    ensures Refers(rule).Success? ==> Refers(rule).value == (!OnChain(rule, GUARD_CHAIN) && Transfers(rule))
    ensures Refers(rule).Failure? <==>
            && !OnChain(rule, GUARD_CHAIN)
            && (Dangles(rule, "-j") || (!Gives(rule, "-j", GUARD_CHAIN) && Dangles(rule, "-g")))
  {
    OptionValueExactly(rule, "-j", GUARD_CHAIN);
    OptionValueExactly(rule, "-g", GUARD_CHAIN);
  }

  lemma {:induction false} ReferencesExactly(rules: seq<Rule>)
    ensures References(rules).Failure? <==> exists i :: 0 <= i < |rules| && Refers(rules[i]).Failure?
    ensures References(rules).Success? ==>
              forall i :: 0 <= i < |rules| && !OnChain(rules[i], GUARD_CHAIN) && Transfers(rules[i]) ==> rules[i] in References(rules).value
    ensures References(rules) == Success([]) ==>
              forall i :: 0 <= i < |rules| ==> OnChain(rules[i], GUARD_CHAIN) || !Transfers(rules[i])
    decreases |rules|
  {
    if rules == [] {
    } else {
      RefersExactly(rules[0]);
      ReferencesExactly(rules[1..]);
      assert forall i :: 0 < i < |rules| ==> rules[i] == rules[1..][i - 1];
      if References(rules).Failure? && Refers(rules[0]).Success? {
        var i :| 0 <= i < |rules| - 1 && Refers(rules[1..][i]).Failure?;
        assert Refers(rules[i + 1]).Failure?;
      }
    }
  }

  /** One reference means one rule, at one place. */
  lemma {:induction false} SingleReference(rules: seq<Rule>, hook: Rule) returns (h: nat)
    requires References(rules) == Success([hook])
    ensures h < |rules| && rules[h] == hook && !OnChain(hook, GUARD_CHAIN) && Transfers(hook)
    ensures forall i :: 0 <= i < |rules| && i != h ==> OnChain(rules[i], GUARD_CHAIN) || !Transfers(rules[i])
    decreases |rules|
  {
    RefersExactly(rules[0]);
    assert forall i :: 0 < i < |rules| ==> rules[i] == rules[1..][i - 1];
    if Refers(rules[0]).value {
      ReferencesExactly(rules[1..]);
      assert References(rules[1..]) == Success([]) by {
        assert [rules[0]] + References(rules[1..]).value == [hook];
      }
      assert rules[0] == ([rules[0]] + References(rules[1..]).value)[0];
      h := 0;
    } else {
      assert [] + References(rules[1..]).value == References(rules[1..]).value;
      var k := SingleReference(rules[1..], hook);
      h := k + 1;
    }
  }

  /**
   * In an accepted table the guard is entered from one place only, its hook; INPUT drops
   * whatever no rule decides; and all three guarded ports are managed ones.
   */
  lemma AcceptedGuardHasOneEntry(rd: Readers, policy: Policy, policies: map<string, string>, rules: seq<Rule>) returns (h: nat)
    requires TableExact(rd, policy, policies, rules)
    ensures h < |rules| && rules[h] == EXACT_HOOK
    ensures forall i :: 0 <= i < |rules| && !OnChain(rules[i], GUARD_CHAIN) ==> (Transfers(rules[i]) <==> i == h)
    ensures "INPUT" in policies && policies["INPUT"] == DROP
    ensures policy.plain in policy.managed && policy.tls in policy.managed && policy.legacy in policy.managed
  {
    h := SingleReference(rules, EXACT_HOOK);
  }

  /** A source exception admits packets of one address only, of the policy's family. */
  lemma ExceptionAdmitsOneHost(rd: Readers, family: nat, rule: Rule, a: Packet, b: Packet)
    requires HostKey(rd, family, rule).Some? && RuleMatches(rd, rule[2..], a) && RuleMatches(rd, rule[2..], b)
    ensures a.source == b.source && a.source.version == family
  {
    var values := ParsedRule(rule).value;
    RuleMeaning(rd, rule, a);
    RuleMeaning(rd, rule, b);
    assert OptionMatches(rd, Source, values[Source], a) && OptionMatches(rd, Source, values[Source], b);
    assert Pow2(0) == 1;
  }

  // ---- The prescribed table is accepted -----------------------------------------------

  function NameText(name: Name): (t: string)
    ensures OptionName(t) == Some(name)
  {
    match name
    case Interface => "-i"
    case Source => "-s"
    case Protocol => "-p"
    case Dport => "--dport"
    case Jump => "-j"
    case Module => "-m"
  }

  function Render(options: seq<(Name, string)>): seq<string> {
    if options == [] then [] else [NameText(options[0].0), options[0].1] + Render(options[1..])
  }

  function Collect(options: seq<(Name, string)>, values: Values): Values {
    if options == [] then values else Collect(options[1..], values[options[0].0 := options[0].1])
  }

  /** Each name once, and only the TCP match module. */
  predicate Plain(options: seq<(Name, string)>) {
    && (forall i, j :: 0 <= i < j < |options| ==> options[i].0 != options[j].0)
    && (forall i :: 0 <= i < |options| && options[i].0 == Module ==> options[i].1 == "tcp")
  }

  lemma {:induction false} ParseRendered(options: seq<(Name, string)>, values: Values)
    requires Plain(options) && forall i :: 0 <= i < |options| ==> options[i].0 !in values
    ensures ParseOptions(Render(options), values) == Some(Collect(options, values))
  {
    if options == [] {
    } else {
      ParseRendered(options[1..], values[options[0].0 := options[0].1]);
      assert Render(options)[2..] == Render(options[1..]);
    }
  }

  function GuardRule(options: seq<(Name, string)>): Rule {
    ["-A", GUARD_CHAIN] + Render(options)
  }

  lemma ParseGuard(options: seq<(Name, string)>)
    requires Plain(options) && options != []
    ensures ParsedRule(GuardRule(options)) == Some(Collect(options, map[]))
  {
    ParseRendered(options, map[]);
    assert GuardRule(options)[2..] == Render(options);
  }

  function TcpPort(port: string, target: string): seq<(Name, string)> {
    [(Protocol, "tcp"), (Module, "tcp"), (Dport, port), (Jump, target)]
  }

  function PortRule(rd: Readers, port: int, target: string): Rule {
    GuardRule(TcpPort(rd.portText(port), target))
  }

  function HostRule(rd: Readers, key: (string, int)): Rule {
    GuardRule([(Source, key.0)] + TcpPort(rd.portText(key.1), RETURN))
  }

  function LoopbackGuardRule(rd: Readers, policy: Policy): Rule {
    GuardRule([(Interface, "lo"), (Source, policy.Loopback())] + TcpPort(rd.portText(policy.plain), RETURN))
  }

  function Exceptions(rd: Readers, policy: Policy, keys: seq<(string, int)>): seq<Rule> {
    match policy.mode
    case Closed => []
    case Public => [PortRule(rd, policy.plain, RETURN), PortRule(rd, policy.tls, RETURN)]
    case Open => [LoopbackGuardRule(rd, policy)] + seq(|keys|, i requires 0 <= i < |keys| => HostRule(rd, keys[i]))
  }

  function PrescribedGuard(rd: Readers, policy: Policy, keys: seq<(string, int)>): seq<Rule> {
    Exceptions(rd, policy, keys)
    + [PortRule(rd, policy.plain, DROP), PortRule(rd, policy.tls, DROP), PortRule(rd, policy.legacy, DROP)]
    + [GuardRule([(Jump, RETURN)])]
  }

  /** The caller's argument checks: managed ports, and canonical host sources of the family. */
  ghost predicate WellFormed(rd: Readers, policy: Policy) {
    && policy.managed == {policy.plain, policy.tls, policy.legacy}
    && (forall s :: s in policy.sources ==>
          && rd.networkOf(s).Some? && rd.networkText(rd.networkOf(s).value) == s
          && rd.networkOf(s).value.version == policy.family && rd.networkOf(s).value.ExactHost())
  }

  ghost predicate Enumerates(keys: seq<(string, int)>, expected: set<(string, int)>) {
    && (forall i, j :: 0 <= i < j < |keys| ==> keys[i] != keys[j])
    && (forall key :: key in keys <==> key in expected)
  }

  lemma CollectTcp(port: string, target: string, values: Values)
    ensures Collect(TcpPort(port, target), values) == values[Protocol := "tcp"][Module := "tcp"][Dport := port][Jump := target]
  {
    var options := TcpPort(port, target);
    var a, b, c, d := values[Protocol := "tcp"], values[Protocol := "tcp"][Module := "tcp"],
      values[Protocol := "tcp"][Module := "tcp"][Dport := port], options[1..];
    assert Collect(options, values) == Collect(d, a);
    assert Collect(d, a) == Collect(d[1..], b);
    assert Collect(d[1..], b) == Collect(d[1..][1..], c);
    assert d[1..][1..][1..] == [];
    assert Collect(d[1..][1..], c) == c[Jump := target];
  }

  lemma PortRuleParses(rd: Readers, port: int, target: string)
    ensures ParsedRule(PortRule(rd, port, target))
         == Some(map[Protocol := "tcp", Module := "tcp", Dport := rd.portText(port), Jump := target])
  {
    ParseGuard(TcpPort(rd.portText(port), target));
    CollectTcp(rd.portText(port), target, map[]);
  }

  lemma HostRuleParses(rd: Readers, policy: Policy, key: (string, int))
    requires Coherent(rd) && WellFormed(rd, policy) && key in policy.Expected()
    ensures HostKey(rd, policy.family, HostRule(rd, key)) == Some(key)
  {
    var tcp := TcpPort(rd.portText(key.1), RETURN);
    var options := [(Source, key.0)] + tcp;
    ParseGuard(options);
    assert options[1..] == tcp;
    CollectTcp(rd.portText(key.1), RETURN, map[Source := key.0]);
    assert ParsedRule(HostRule(rd, key)).value
        == map[Source := key.0, Protocol := "tcp", Module := "tcp", Dport := rd.portText(key.1), Jump := RETURN];
  }

  lemma LoopbackParses(rd: Readers, policy: Policy)
    ensures ParsedRule(LoopbackGuardRule(rd, policy)) == Some(LoopbackRule(rd, policy))
  {
    var tcp := TcpPort(rd.portText(policy.plain), RETURN);
    var options := [(Interface, "lo"), (Source, policy.Loopback())] + tcp;
    ParseGuard(options);
    assert options[1..][1..] == tcp;
    CollectTcp(rd.portText(policy.plain), RETURN, map[Interface := "lo", Source := policy.Loopback()]);
  }

  lemma HostRulesAccepted(rd: Readers, policy: Policy, keys: seq<(string, int)>, rules: seq<Rule>)
    requires Coherent(rd) && WellFormed(rd, policy) && Enumerates(keys, policy.Expected()) && |rules| == |keys|
    requires forall i :: 0 <= i < |keys| ==> rules[i] == HostRule(rd, keys[i])
    ensures HostRulesExact(rd, policy, rules)
  {
    forall i | 0 <= i < |keys| ensures HostKey(rd, policy.family, rules[i]) == Some(keys[i]) {
      assert keys[i] in keys;
      HostRuleParses(rd, policy, keys[i]);
    }
    forall key | key in policy.Expected() ensures exists i :: 0 <= i < |rules| && HostKey(rd, policy.family, rules[i]) == Some(key) {
      assert key in keys;
      var i :| 0 <= i < |keys| && keys[i] == key;
    }
  }

  lemma ExceptionsAccepted(rd: Readers, policy: Policy, keys: seq<(string, int)>)
    requires Coherent(rd) && WellFormed(rd, policy) && Enumerates(keys, policy.Expected())
    ensures ExceptionsExact(rd, policy, Exceptions(rd, policy, keys))
  {
    match policy.mode
    case Closed =>
    case Public =>
      PortRuleParses(rd, policy.plain, RETURN);
      PortRuleParses(rd, policy.tls, RETURN);
    case Open =>
      var rules := Exceptions(rd, policy, keys);
      LoopbackParses(rd, policy);
      HostRulesAccepted(rd, policy, keys, rules[1..]);
  }

  /** A well-formed policy's own guard passes the check, in any order of its sources. */
  lemma PrescribedGuardAccepted(rd: Readers, policy: Policy, keys: seq<(string, int)>)
    requires Coherent(rd) && WellFormed(rd, policy) && Enumerates(keys, policy.Expected())
    ensures GuardExact(rd, policy, PrescribedGuard(rd, policy, keys))
  {
    var exceptions, guard := Exceptions(rd, policy, keys), PrescribedGuard(rd, policy, keys);
    ExceptionsAccepted(rd, policy, keys);
    assert guard[..|guard| - 4] == exceptions;
    PortRuleParses(rd, policy.plain, DROP);
    PortRuleParses(rd, policy.tls, DROP);
    PortRuleParses(rd, policy.legacy, DROP);
    ParseGuard([(Jump, RETURN)]);
    assert Collect([(Jump, RETURN)], map[]) == map[Jump := RETURN];
  }
}
