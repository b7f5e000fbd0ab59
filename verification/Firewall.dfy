/** Tenant isolation rules: the policy manager that compiles them into a filter table, an interpreter
    for the table, and what the compiled rules mean for a packet. */
module Firewall {
  import opened Ipv4

  datatype Target = Accept | Drop | Jump(chain: string)

  /** A rule: optional ingress and egress interface, optional comment, target. */
  datatype Rule = Rule(inIf: Option<string>, outIf: Option<string>, comment: Option<string>, target: Target)

  type Chains = map<string, seq<Rule>>

  const ANCHOR := "SETERA-PRIV-FORWARD"
  const MAX_CHAIN_LEN := 29

  // ----- chain names -----

  predicate ChainChar(c: char) {
    'a' <= c <= 'z' || 'A' <= c <= 'Z' || '0' <= c <= '9' || c == '-' || c == '_'
  }

  function Clean(c: char): char {
    if ChainChar(c) then c else '-'
  }

  function Sanitize(s: string): string {
    if s == "" then "" else [Clean(s[0])] + Sanitize(s[1..])
  }

  /** The tenant's own chain. */
  function FwChain(tenant: string): string {
    if tenant == "" then "FW"
    else
      var name := Sanitize("FW-" + tenant);
      if |name| > MAX_CHAIN_LEN then name[..MAX_CHAIN_LEN] else name
  }

  /** The rune-by-rune construction of the chain's name. */
  method MapRunes(raw: string) returns (name: string)
    ensures name == Sanitize(raw)
  {
    name := "";
    for i := 0 to |raw|
      invariant |name| == i && forall j | 0 <= j < i :: name[j] == Clean(raw[j])
    {
      name := name + [Clean(raw[i])];
    }
    SanitizeLength(raw);
    forall j | 0 <= j < |raw|
      ensures name[j] == Sanitize(raw)[j]
    {
      SanitizeAt(raw, j);
    }
  }

  method ChainName(tenant: string) returns (name: string)
    ensures name == FwChain(tenant)
  {
    if tenant == "" {
      return "FW";
    }
    name := MapRunes("FW-" + tenant);
    if |name| > MAX_CHAIN_LEN {
      name := name[..MAX_CHAIN_LEN];
    }
  }

  // ----- the rules -----

  datatype Kind = Bridge | Vxlan

  function KindName(kind: Kind): string {
    match kind
    case Bridge => "bridge"
    case Vxlan => "vxlan"
  }

  function IngressRule(tenant: string, iface: string, kind: Kind): Rule {
    Rule(Some(iface), None, Some("tenant:" + tenant + ":ingress:" + KindName(kind)), Jump(FwChain(tenant)))
  }

  function EgressRule(tenant: string, iface: string, kind: Kind): Rule {
    Rule(None, Some(iface), Some("tenant:" + tenant + ":egress:" + KindName(kind)), Accept)
  }

  function ExtraRule(iface: string): Rule {
    Rule(None, Some(iface), None, Accept)
  }

  function DropRule(tenant: string): Rule {
    Rule(None, None, Some("tenant:" + tenant + ":default-drop"), Drop)
  }

  /** The handle's AppendUnique. */
  function AppendOnce(rules: seq<Rule>, r: Rule): seq<Rule> {
    if r in rules then rules else rules + [r]
  }

  // ----- the interpreter -----

  datatype Packet = Packet(inIf: string, outIf: string)

  datatype Verdict = Accepted | Dropped

  predicate Matches(r: Rule, pkt: Packet) {
    (r.inIf.Some? ==> r.inIf.value == pkt.inIf) && (r.outIf.Some? ==> r.outIf.value == pkt.outIf)
  }

  /** The verdict of a list of rules, or none when the packet falls off its end. `depth` bounds nested jumps. */
  function Eval(t: Chains, rules: seq<Rule>, pkt: Packet, depth: nat): Option<Verdict>
    decreases depth, |rules|
  {
    if rules == [] then None
    else if !Matches(rules[0], pkt) then Eval(t, rules[1..], pkt, depth)
    else
      match rules[0].target
      case Accept => Some(Accepted)
      case Drop => Some(Dropped)
      case Jump(c) =>
        var v := if depth > 0 && c in t then Eval(t, t[c], pkt, depth - 1) else None;
        if v.Some? then v else Eval(t, rules[1..], pkt, depth)
  }

  // ----- the filter table and the policy manager -----

  /** The filter table behind the handle. */
  class FilterTable {
    var chains: Chains

    constructor ()
      ensures chains == map[]
    {
      chains := map[];
    }

    method NewChain(c: string) returns (ok: bool)
      modifies this
      ensures ok <==> c !in old(chains)
      ensures chains == if ok then old(chains)[c := []] else old(chains)
    {
      ok := c !in chains;
      if ok {
        chains := chains[c := []];
      }
    }

    /** Flushes a chain, creating it if needed. */
    method ClearChain(c: string)
      modifies this
      ensures chains == old(chains)[c := []]
    {
      chains := chains[c := []];
    }

    /** Deletes an empty chain that no rule jumps to. */
    method DeleteChain(c: string) returns (ok: bool)
      modifies this
      ensures ok <==> c in old(chains) && old(chains)[c] == [] && !Referenced(old(chains), c)
      ensures chains == if ok then old(chains) - {c} else old(chains)
    {
      ok := c in chains && chains[c] == [] && !Referenced(chains, c);
      if ok {
        chains := chains - {c};
      }
    }

    method AppendUnique(c: string, r: Rule) returns (ok: bool)
      modifies this
      ensures ok <==> c in old(chains)
      ensures chains == if ok then old(chains)[c := AppendOnce(old(chains)[c], r)] else old(chains)
    {
      ok := c in chains;
      if ok {
        chains := chains[c := AppendOnce(chains[c], r)];
      }
    }

    /** Deletes the first rule equal to r. */
    method Delete(c: string, r: Rule) returns (ok: bool)
      modifies this
      ensures ok <==> c in old(chains) && r in old(chains)[c]
      ensures chains == if ok then old(chains)[c := RemoveFirst(old(chains)[c], r)] else old(chains)
    {
      ok := c in chains && r in chains[c];
      if ok {
        chains := chains[c := RemoveFirst(chains[c], r)];
      }
    }
  }

  predicate Referenced(t: Chains, c: string) {
    exists n | n in t :: JumpsTo(t[n], c)
  }

  predicate JumpsTo(rules: seq<Rule>, c: string) {
    exists i | 0 <= i < |rules| :: rules[i].target == Jump(c)
  }

  function RemoveFirst(rules: seq<Rule>, r: Rule): seq<Rule> {
    if rules == [] then [] else if rules[0] == r then rules[1..] else [rules[0]] + RemoveFirst(rules[1..], r)
  }

  // ----- what the two operations do to the table -----

  datatype Tenant = Tenant(bridge: string, vxlan: string, extra: seq<string>)

  function Anchor(t: Chains): seq<Rule> {
    if ANCHOR in t then t[ANCHOR] else []
  }

  function WithIngress(rules: seq<Rule>, tenant: string, iface: string, kind: Kind): seq<Rule> {
    if iface == "" then rules else AppendOnce(rules, IngressRule(tenant, iface, kind))
  }

  function Jumps(rules: seq<Rule>, tenant: string, bridge: string, vxlan: string): seq<Rule> {
    WithIngress(WithIngress(rules, tenant, vxlan, Vxlan), tenant, bridge, Bridge)
  }

  function WithEgress(rules: seq<Rule>, tenant: string, iface: string, kind: Kind): seq<Rule> {
    if iface == "" then rules else AppendOnce(rules, EgressRule(tenant, iface, kind))
  }

  function WithExtras(rules: seq<Rule>, extra: seq<string>): seq<Rule>
    decreases |extra|
  {
    if extra == [] then rules
    else
      var last := extra[|extra| - 1];
      var before := WithExtras(rules, extra[..|extra| - 1]);
      if last == "" then before else AppendOnce(before, ExtraRule(last))
  }

  function Accepts(tenant: string, x: Tenant): seq<Rule> {
    WithExtras(WithEgress(WithEgress([], tenant, x.bridge, Bridge), tenant, x.vxlan, Vxlan), x.extra)
  }

  /** The tenant's chain. */
  function IsolationRules(tenant: string, x: Tenant): seq<Rule> {
    AppendOnce(Accepts(tenant, x), DropRule(tenant))
  }

  function Isolated(t: Chains, tenant: string, x: Tenant): Chains {
    t[ANCHOR := Jumps(Anchor(t), tenant, x.bridge, x.vxlan)][FwChain(tenant) := IsolationRules(tenant, x)]
  }

  datatype Outcome = Outcome(ok: bool, chains: Chains)

  /** Removing one ingress jump: nothing to do for a missing interface, an error for a missing rule. */
  function Unjumped(t: Chains, tenant: string, iface: string, kind: Kind): Outcome {
    var r := IngressRule(tenant, iface, kind);
    if iface == "" then Outcome(true, t)
    else if r in Anchor(t) then Outcome(true, t[ANCHOR := RemoveFirst(Anchor(t), r)])
    else Outcome(false, t)
  }

  function Deleted(t: Chains, tenant: string, bridge: string, vxlan: string): Outcome {
    var a := Unjumped(t, tenant, bridge, Bridge);
    if !a.ok then a
    else
      var b := Unjumped(a.chains, tenant, vxlan, Vxlan);
      if !b.ok then b
      else
        var c := b.chains[FwChain(tenant) := []];
        if Referenced(c, FwChain(tenant)) then Outcome(false, c) else Outcome(true, c - {FwChain(tenant)})
  }

  /** The policy manager over one filter table. */
  class TenantPolicyManager {
    const nl: FilterTable

    constructor (table: FilterTable)
      ensures nl == table
    {
      nl := table;
    }

    method EnsureTenantChains(tenant: string) returns (ok: bool)
      modifies nl
      ensures ok <==> tenant != ""
      ensures nl.chains == if ok then old(nl.chains)[FwChain(tenant) := []] else old(nl.chains)
    {
      if tenant == "" {
        return false;
      }
      var created := nl.NewChain(FwChain(tenant));
      nl.ClearChain(FwChain(tenant));
      return true;
    }

    /** Appends the tenant's jump for one interface, if it has that interface. */
    method InsertPrivateJump(tenant: string, iface: string, kind: Kind)
      requires ANCHOR in nl.chains
      modifies nl
      ensures nl.chains == old(nl.chains)[ANCHOR := WithIngress(old(nl.chains)[ANCHOR], tenant, iface, kind)]
    {
      if iface != "" {
        var ok := nl.AppendUnique(ANCHOR, IngressRule(tenant, iface, kind));
      }
    }

    method InsertJumps(tenant: string, bridge: string, vxlan: string)
      modifies nl
      ensures nl.chains == old(nl.chains)[ANCHOR := Jumps(Anchor(old(nl.chains)), tenant, bridge, vxlan)]
    {
      var created := nl.NewChain(ANCHOR);
      InsertPrivateJump(tenant, vxlan, Vxlan);
      InsertPrivateJump(tenant, bridge, Bridge);
    }

    method AcceptEgress(tenant: string, iface: string, kind: Kind)
      requires FwChain(tenant) in nl.chains
      modifies nl
      ensures nl.chains ==
        old(nl.chains)[FwChain(tenant) := WithEgress(old(nl.chains)[FwChain(tenant)], tenant, iface, kind)]
    {
      if iface != "" {
        var ok := nl.AppendUnique(FwChain(tenant), EgressRule(tenant, iface, kind));
      }
    }

    method AcceptExtras(tenant: string, extra: seq<string>)
      requires FwChain(tenant) in nl.chains
      modifies nl
      ensures nl.chains == old(nl.chains)[FwChain(tenant) := WithExtras(old(nl.chains)[FwChain(tenant)], extra)]
    {
      ghost var before := nl.chains[FwChain(tenant)];
      for i := 0 to |extra|
        invariant FwChain(tenant) in nl.chains
        invariant nl.chains == old(nl.chains)[FwChain(tenant) := WithExtras(before, extra[..i])]
      {
        assert extra[..i + 1][..i] == extra[..i];
        if extra[i] != "" {
          var ok := nl.AppendUnique(FwChain(tenant), ExtraRule(extra[i]));
        }
      }
      assert extra[..|extra|] == extra;
    }

    /** Fills the tenant's empty chain. */
    method FillChain(tenant: string, bridge: string, vxlan: string, extra: seq<string>)
      requires FwChain(tenant) in nl.chains && nl.chains[FwChain(tenant)] == []
      modifies nl
      ensures nl.chains ==
        old(nl.chains)[FwChain(tenant) := IsolationRules(tenant, Tenant(bridge, vxlan, extra))]
    {
      AcceptEgress(tenant, bridge, Bridge);
      AcceptEgress(tenant, vxlan, Vxlan);
      AcceptExtras(tenant, extra);
      var ok := nl.AppendUnique(FwChain(tenant), DropRule(tenant));
    }

    /** The isolation rules for one tenant, rebuilt from scratch; jumps already in the anchor stay. */
    method EnsureTenantIsolation(tenant: string, bridge: string, vxlan: string, extra: seq<string>) returns (ok: bool)
      modifies nl
      ensures ok <==> tenant != ""
      ensures nl.chains ==
        if ok then Isolated(old(nl.chains), tenant, Tenant(bridge, vxlan, extra)) else old(nl.chains)
    {
      ok := EnsureTenantChains(tenant);
      if !ok {
        return;
      }
      NotAnchor(tenant);
      InsertJumps(tenant, bridge, vxlan);
      FillChain(tenant, bridge, vxlan, extra);
    }

    method RemoveFromPrivateAnchor(tenant: string, iface: string, kind: Kind) returns (ok: bool)
      modifies nl
      ensures Outcome(ok, nl.chains) == Unjumped(old(nl.chains), tenant, iface, kind)
    {
      if iface == "" {
        return true;
      }
      ok := nl.Delete(ANCHOR, IngressRule(tenant, iface, kind));
    }

    method DeleteTenantChains(tenant: string, bridge: string, vxlan: string) returns (ok: bool)
      modifies nl
      ensures tenant == "" ==> !ok && nl.chains == old(nl.chains)
      ensures tenant != "" ==> Outcome(ok, nl.chains) == Deleted(old(nl.chains), tenant, bridge, vxlan)
    {
      if tenant == "" {
        return false;
      }
      ok := RemoveFromPrivateAnchor(tenant, bridge, Bridge);
      if !ok {
        return;
      }
      ok := RemoveFromPrivateAnchor(tenant, vxlan, Vxlan);
      if !ok {
        return;
      }
      nl.ClearChain(FwChain(tenant));
      ok := nl.DeleteChain(FwChain(tenant));
    }
  }

  // ----- chain names never collide with the anchor; they can collide with each other -----

  lemma NotAnchor(tenant: string)
    ensures FwChain(tenant) != ANCHOR
  {
    if tenant != "" {
      assert ("FW-" + tenant)[0] == 'F';
      assert Sanitize("FW-" + tenant)[0] == 'F';
    }
    assert FwChain(tenant)[0] == 'F';
  }

  /** How many characters of a tenant's name its chain carries. */
  function Cut(tenant: string): nat {
    if |tenant| < MAX_CHAIN_LEN - 3 then |tenant| else MAX_CHAIN_LEN - 3
  }

  lemma FwChainForm(tenant: string)
    requires tenant != ""
    ensures |FwChain(tenant)| == 3 + Cut(tenant)
    ensures FwChain(tenant)[..3] == "FW-"
    ensures forall i | 0 <= i < Cut(tenant) :: FwChain(tenant)[3 + i] == Clean(tenant[i])
  {
    var raw := "FW-" + tenant;
    SanitizeLength(raw);
    forall i | 0 <= i < |raw|
      ensures Sanitize(raw)[i] == Clean(raw[i])
    {
      SanitizeAt(raw, i);
    }
    assert raw[0] == 'F' && raw[1] == 'W' && raw[2] == '-';
    assert forall i | 0 <= i < |tenant| :: raw[3 + i] == tenant[i];
  }

  /** Two tenants share a chain exactly when the carried parts of their names agree up to replaced characters. */
  lemma SameChain(a: string, b: string)
    ensures FwChain(a) == FwChain(b) <==>
      Cut(a) == Cut(b) && forall i | 0 <= i < Cut(a) :: Clean(a[i]) == Clean(b[i])
  {
    if a != "" {
      FwChainForm(a);
    }
    if b != "" {
      FwChainForm(b);
    }
    if a != "" && b != "" {
      SameForm(FwChain(a), FwChain(b), a, b);
    }
  }

  lemma SameForm(f: string, g: string, a: string, b: string)
    requires |f| == 3 + Cut(a) && |g| == 3 + Cut(b) && f[..3] == g[..3]
    requires forall i | 0 <= i < Cut(a) :: f[3 + i] == Clean(a[i])
    requires forall i | 0 <= i < Cut(b) :: g[3 + i] == Clean(b[i])
    ensures f == g <==> Cut(a) == Cut(b) && forall i | 0 <= i < Cut(a) :: Clean(a[i]) == Clean(b[i])
  {
    if Cut(a) == Cut(b) && forall i | 0 <= i < Cut(a) :: Clean(a[i]) == Clean(b[i]) {
      forall k | 0 <= k < |f|
        ensures f[k] == g[k]
      {
        if k < 3 {
          assert f[k] == f[..3][k] && g[k] == g[..3][k];
        } else {
          var i := k - 3;
          assert Clean(a[i]) == Clean(b[i]) && f[3 + i] == Clean(a[i]) && g[3 + i] == Clean(b[i]);
        }
      }
    }
  }

  /** Letters, digits, hyphens and underscores. */
  predicate Plain(s: string) {
    forall i | 0 <= i < |s| ::
      'a' <= s[i] <= 'z' || 'A' <= s[i] <= 'Z' || '0' <= s[i] <= '9' || s[i] == '-' || s[i] == '_'
  }

  /** Plain names of at most 26 characters have chains of their own. */
  lemma PlainNamesApart(a: string, b: string)
    requires Plain(a) && Plain(b) && |a| <= 26 && |b| <= 26 && FwChain(a) == FwChain(b)
    ensures a == b
  {
    SameChain(a, b);
    forall i | 0 <= i < |a|
      ensures a[i] == b[i]
    {
      assert Clean(a[i]) == Clean(b[i]);
    }
  }

  /** Chain names are plain and at most 29 characters long, whatever the tenant is called. */
  lemma ChainIsPlain(tenant: string)
    ensures Plain(FwChain(tenant)) && |FwChain(tenant)| <= 29
  {
    if tenant != "" {
      FwChainForm(tenant);
      var f := FwChain(tenant);
      forall i | 0 <= i < |f|
        ensures Plain([f[i]])
      {
        assert i < 3 ==> f[i] == f[..3][i];
        assert i >= 3 ==> f[3 + (i - 3)] == Clean(tenant[i - 3]);
      }
      assert forall i | 0 <= i < |f| :: Plain([f[i]]) && [f[i]][0] == f[i];
    }
  }

  /** Distinct tenants can share a chain, so the theorems below ask for distinct chain names. */
  lemma NamesCollide()
    ensures FwChain("a.b") == FwChain("a-b")
  {
    SameChain("a.b", "a-b");
  }

  lemma {:induction false} SanitizeLength(s: string)
    ensures |Sanitize(s)| == |s|
  {
    if s != "" {
      SanitizeLength(s[1..]);
    }
  }

  lemma {:induction false} SanitizeAt(s: string, j: nat)
    requires j < |s|
    ensures |Sanitize(s)| == |s| && Sanitize(s)[j] == Clean(s[j])
  {
    SanitizeLength(s);
    if j > 0 {
      SanitizeAt(s[1..], j - 1);
    }
  }

  // ----- what the rules mean, over every run -----

  type Live = map<string, Tenant>

  predicate Owns(x: Tenant, iface: string) {
    iface != "" && (iface == x.bridge || iface == x.vxlan)
  }

  /** The interfaces the tenant's packets may leave by. */
  predicate Allows(x: Tenant, iface: string) {
    iface != "" && (iface == x.bridge || iface == x.vxlan || iface in x.extra)
  }

  /** Two tenants with different chains and no ingress interface in common. */
  predicate Apart(a: string, x: Tenant, b: string, y: Tenant) {
    FwChain(a) != FwChain(b) && !Owns(y, x.bridge) && !Owns(y, x.vxlan)
  }

  predicate JumpOf(tenant: string, x: Tenant, r: Rule) {
    || (x.bridge != "" && r == IngressRule(tenant, x.bridge, Bridge))
    || (x.vxlan != "" && r == IngressRule(tenant, x.vxlan, Vxlan))
  }

  predicate IsJump(live: Live, r: Rule) {
    exists tenant | tenant in live :: JumpOf(tenant, live[tenant], r)
  }

  predicate AllJumps(live: Live, rules: seq<Rule>) {
    forall i | 0 <= i < |rules| :: IsJump(live, rules[i])
  }

  predicate HasJumps(tenant: string, x: Tenant, rules: seq<Rule>) {
    && (x.bridge != "" ==> IngressRule(tenant, x.bridge, Bridge) in rules)
    && (x.vxlan != "" ==> IngressRule(tenant, x.vxlan, Vxlan) in rules)
  }

  /** A tenant is installed: its chain holds its rules and its jumps are in the anchor. */
  predicate Installed(t: Chains, tenant: string, x: Tenant) {
    && FwChain(tenant) in t
    && t[FwChain(tenant)] == IsolationRules(tenant, x)
    && HasJumps(tenant, x, Anchor(t))
  }

  predicate AllApart(live: Live) {
    forall a, b | a in live && b in live && a != b :: Apart(a, live[a], b, live[b])
  }

  predicate NoRepeats(rules: seq<Rule>) {
    forall i, j | 0 <= i < j < |rules| :: rules[i] != rules[j]
  }

  predicate Inv(t: Chains, live: Live) {
    && AllApart(live)
    && NoRepeats(Anchor(t))
    && AllJumps(live, Anchor(t))
    && (forall tenant | tenant in live :: Installed(t, tenant, live[tenant]))
  }

  datatype Op = Ensure(tenant: string, x: Tenant) | Delete(tenant: string, bridge: string, vxlan: string)

  /** Ensuring a tenant again drops none of the interfaces it had. */
  predicate KeepsInterfaces(was: Tenant, x: Tenant) {
    && (was.bridge == "" || was.bridge == x.bridge)
    && (was.vxlan == "" || was.vxlan == x.vxlan)
  }

  /** No other live tenant has the tenant's chain or one of its interfaces. */
  predicate ApartFromOthers(live: Live, tenant: string, x: Tenant) {
    forall u | u in live && u != tenant :: Apart(tenant, x, u, live[u]) && Apart(u, live[u], tenant, x)
  }

  /** Tenants have distinct chains and interfaces, and a tenant keeps its interfaces while it lives. */
  predicate Fits(live: Live, op: Op) {
    match op
    case Ensure(tenant, x) =>
      && tenant != ""
      && (tenant in live ==> KeepsInterfaces(live[tenant], x))
      && ApartFromOthers(live, tenant, x)
    case Delete(tenant, _, _) =>
      && tenant != ""
      && (forall u | u in live && u != tenant :: FwChain(u) != FwChain(tenant))
  }

  function LiveAfter(live: Live, op: Op): Live {
    match op
    case Ensure(tenant, x) => live[tenant := x]
    case Delete(tenant, _, _) => live - {tenant}
  }

  /** One successful operation. */
  predicate Succeeds(t: Chains, op: Op, t': Chains) {
    match op
    case Ensure(tenant, x) => t' == Isolated(t, tenant, x)
    case Delete(tenant, bridge, vxlan) => Deleted(t, tenant, bridge, vxlan) == Outcome(true, t')
  }

  // ----- the tenant's chain -----

  predicate AcceptsOut(r: Rule) {
    r.inIf.None? && r.outIf.Some? && r.target == Accept
  }

  predicate AllAccept(rules: seq<Rule>) {
    forall i | 0 <= i < |rules| :: AcceptsOut(rules[i])
  }

  predicate LeavesBy(rules: seq<Rule>, iface: string) {
    exists i | 0 <= i < |rules| :: rules[i].outIf == Some(iface)
  }

  lemma AppendAccept(rules: seq<Rule>, r: Rule, iface: string)
    requires AllAccept(rules) && AcceptsOut(r)
    ensures AllAccept(AppendOnce(rules, r))
    ensures LeavesBy(AppendOnce(rules, r), iface) <==> LeavesBy(rules, iface) || r.outIf == Some(iface)
  {
    var out := AppendOnce(rules, r);
    if r in rules {
      var k :| 0 <= k < |rules| && rules[k] == r;
      assert rules[k].outIf == r.outIf;
    } else {
      assert out[|rules|] == r;
      forall i | 0 <= i < |rules|
        ensures out[i] == rules[i]
      {
      }
    }
  }

  lemma {:induction false} ExtrasMeaning(rules: seq<Rule>, extra: seq<string>, iface: string)
    requires AllAccept(rules)
    ensures AllAccept(WithExtras(rules, extra))
    ensures LeavesBy(WithExtras(rules, extra), iface) <==>
      LeavesBy(rules, iface) || (iface != "" && iface in extra)
    decreases |extra|
  {
    if extra != [] {
      var n := |extra| - 1;
      ExtrasMeaning(rules, extra[..n], iface);
      assert extra == extra[..n] + [extra[n]];
      if extra[n] != "" {
        AppendAccept(WithExtras(rules, extra[..n]), ExtraRule(extra[n]), iface);
      }
    }
  }

  lemma AcceptsMeaning(tenant: string, x: Tenant, iface: string)
    ensures AllAccept(Accepts(tenant, x))
    ensures LeavesBy(Accepts(tenant, x), iface) <==> Allows(x, iface)
  {
    var a := WithEgress([], tenant, x.bridge, Bridge);
    if x.bridge != "" {
      AppendAccept([], EgressRule(tenant, x.bridge, Bridge), iface);
    }
    var b := WithEgress(a, tenant, x.vxlan, Vxlan);
    if x.vxlan != "" {
      AppendAccept(a, EgressRule(tenant, x.vxlan, Vxlan), iface);
    }
    ExtrasMeaning(b, x.extra, iface);
  }

  lemma {:induction false} EvalAccepts(t: Chains, rules: seq<Rule>, drop: Rule, pkt: Packet, depth: nat)
    requires AllAccept(rules)
    requires drop.inIf.None? && drop.outIf.None? && drop.target == Drop
    ensures Eval(t, rules + [drop], pkt, depth) ==
      Some(if LeavesBy(rules, pkt.outIf) then Accepted else Dropped)
    decreases |rules|
  {
    var all := rules + [drop];
    if rules != [] {
      assert all[0] == rules[0];
      assert all[1..] == rules[1..] + [drop];
      EvalAccepts(t, rules[1..], drop, pkt, depth);
      assert AcceptsOut(rules[0]);
      if LeavesBy(rules, pkt.outIf) && !Matches(rules[0], pkt) {
        var k :| 0 <= k < |rules| && rules[k].outIf == Some(pkt.outIf);
        assert rules[1..][k - 1] == rules[k];
      }
      if LeavesBy(rules[1..], pkt.outIf) {
        var k :| 0 <= k < |rules| - 1 && rules[1..][k].outIf == Some(pkt.outIf);
        assert rules[k + 1].outIf == Some(pkt.outIf);
      }
    }
  }

  /** A tenant's chain decides every packet: accept on its own and extra interfaces, drop otherwise. */
  lemma ChainMeaning(t: Chains, tenant: string, x: Tenant, pkt: Packet, depth: nat)
    ensures Eval(t, IsolationRules(tenant, x), pkt, depth) ==
      Some(if Allows(x, pkt.outIf) then Accepted else Dropped)
  {
    var rules := Accepts(tenant, x);
    AcceptsMeaning(tenant, x, pkt.outIf);
    var drop := DropRule(tenant);
    assert forall k | 0 <= k < |rules| :: AcceptsOut(rules[k]) && rules[k] != drop;
    EvalAccepts(t, rules, drop, pkt, depth);
  }

  // ----- the anchor -----

  predicate Enters(rules: seq<Rule>, iface: string) {
    exists i | 0 <= i < |rules| :: rules[i].inIf == Some(iface)
  }

  /** Every jump for one ingress interface leads to the same tenant's chain. */
  lemma JumpOwner(live: Live, r: Rule, tenant: string)
    requires AllApart(live) && IsJump(live, r)
    requires tenant in live && r.inIf.Some? && Owns(live[tenant], r.inIf.value)
    ensures r.target == Jump(FwChain(tenant))
  {
    var u :| u in live && JumpOf(u, live[u], r);
    if u != tenant {
      assert Apart(u, live[u], tenant, live[tenant]);
    }
  }

  /** All jumps for one ingress interface lead to chain c. */
  predicate LeadTo(rules: seq<Rule>, iface: string, c: string) {
    forall i | 0 <= i < |rules| ::
      && rules[i].inIf.Some? && rules[i].outIf.None?
      && (rules[i].inIf.value == iface ==> rules[i].target == Jump(c))
  }

  lemma {:induction false} EvalAnchor(t: Chains, rules: seq<Rule>, tenant: string, x: Tenant, pkt: Packet, depth: nat)
    requires FwChain(tenant) in t && t[FwChain(tenant)] == IsolationRules(tenant, x)
    requires LeadTo(rules, pkt.inIf, FwChain(tenant)) && Enters(rules, pkt.inIf) && depth > 0
    ensures Eval(t, rules, pkt, depth) == Some(if Allows(x, pkt.outIf) then Accepted else Dropped)
    decreases |rules|
  {
    var r := rules[0];
    if r.inIf.value == pkt.inIf {
      ChainMeaning(t, tenant, x, pkt, depth - 1);
      assert Matches(r, pkt);
    } else {
      var k :| 0 <= k < |rules| && rules[k].inIf == Some(pkt.inIf);
      assert rules[1..][k - 1] == rules[k];
      EvalAnchor(t, rules[1..], tenant, x, pkt, depth);
    }
  }

  lemma {:induction false} EvalFallsThrough(t: Chains, live: Live, rules: seq<Rule>, pkt: Packet, depth: nat)
    requires AllJumps(live, rules)
    requires forall u | u in live :: !Owns(live[u], pkt.inIf)
    ensures Eval(t, rules, pkt, depth) == None
    decreases |rules|
  {
    if rules != [] {
      assert IsJump(live, rules[0]);
      var u :| u in live && JumpOf(u, live[u], rules[0]);
      assert !Owns(live[u], pkt.inIf);
      EvalFallsThrough(t, live, rules[1..], pkt, depth);
    }
  }

  /** A packet entering by a live tenant's interface is decided by that tenant's rules alone. */
  lemma TenantTraffic(t: Chains, live: Live, tenant: string, pkt: Packet, depth: nat)
    requires Inv(t, live) && depth > 0
    requires tenant in live && Owns(live[tenant], pkt.inIf)
    ensures Eval(t, Anchor(t), pkt, depth) == Some(if Allows(live[tenant], pkt.outIf) then Accepted else Dropped)
  {
    var x := live[tenant];
    assert Installed(t, tenant, x);
    var r := IngressRule(tenant, pkt.inIf, if pkt.inIf == x.bridge then Bridge else Vxlan);
    assert r in Anchor(t);
    var k :| 0 <= k < |Anchor(t)| && Anchor(t)[k] == r;
    assert Anchor(t)[k].inIf == Some(pkt.inIf);
    forall i | 0 <= i < |Anchor(t)|
      ensures Anchor(t)[i].inIf.Some? && Anchor(t)[i].outIf.None?
      ensures Anchor(t)[i].inIf.value == pkt.inIf ==> Anchor(t)[i].target == Jump(FwChain(tenant))
    {
      assert IsJump(live, Anchor(t)[i]);
      if Anchor(t)[i].inIf == Some(pkt.inIf) {
        JumpOwner(live, Anchor(t)[i], tenant);
      }
    }
    EvalAnchor(t, Anchor(t), tenant, x, pkt, depth);
  }

  /** Any other ingress passes the anchor undecided. */
  lemma OtherTraffic(t: Chains, live: Live, pkt: Packet, depth: nat)
    requires Inv(t, live)
    requires forall u | u in live :: !Owns(live[u], pkt.inIf)
    ensures Eval(t, Anchor(t), pkt, depth) == None
  {
    EvalFallsThrough(t, live, Anchor(t), pkt, depth);
  }

  // ----- every successful operation keeps the invariant -----

  lemma JumpsMembers(rules: seq<Rule>, tenant: string, bridge: string, vxlan: string, extra: seq<string>, r: Rule)
    ensures r in Jumps(rules, tenant, bridge, vxlan) <==> r in rules || JumpOf(tenant, Tenant(bridge, vxlan, extra), r)
  {
    var a := WithIngress(rules, tenant, vxlan, Vxlan);
    assert r in a <==> r in rules || (vxlan != "" && r == IngressRule(tenant, vxlan, Vxlan));
  }

  lemma JumpsNoRepeats(rules: seq<Rule>, tenant: string, bridge: string, vxlan: string)
    requires NoRepeats(rules)
    ensures NoRepeats(Jumps(rules, tenant, bridge, vxlan))
  {
    assert NoRepeats(WithIngress(rules, tenant, vxlan, Vxlan));
  }

  lemma EnsureKeeps(t: Chains, live: Live, tenant: string, x: Tenant)
    requires Inv(t, live) && Fits(live, Ensure(tenant, x))
    ensures Inv(Isolated(t, tenant, x), live[tenant := x])
  {
    var t' := Isolated(t, tenant, x);
    var live' := live[tenant := x];
    NotAnchor(tenant);
    assert Anchor(t') == Jumps(Anchor(t), tenant, x.bridge, x.vxlan);
    JumpsNoRepeats(Anchor(t), tenant, x.bridge, x.vxlan);
    forall i | 0 <= i < |Anchor(t')|
      ensures IsJump(live', Anchor(t')[i])
    {
      EnsuredJump(t, live, tenant, x, Anchor(t')[i]);
    }
    forall u | u in live'
      ensures Installed(t', u, live'[u])
    {
      EnsuredInstalled(t, live, tenant, x, u);
    }
  }

  lemma EnsuredJump(t: Chains, live: Live, tenant: string, x: Tenant, r: Rule)
    requires AllJumps(live, Anchor(t)) && (tenant in live ==> KeepsInterfaces(live[tenant], x))
    requires r in Jumps(Anchor(t), tenant, x.bridge, x.vxlan)
    ensures IsJump(live[tenant := x], r)
  {
    var live' := live[tenant := x];
    JumpsMembers(Anchor(t), tenant, x.bridge, x.vxlan, x.extra, r);
    if JumpOf(tenant, x, r) {
      assert tenant in live' && JumpOf(tenant, live'[tenant], r);
    } else {
      var i :| 0 <= i < |Anchor(t)| && Anchor(t)[i] == r;
      assert IsJump(live, Anchor(t)[i]);
      var u :| u in live && JumpOf(u, live[u], r);
      assert u in live' && JumpOf(u, live'[u], r);
    }
  }

  lemma EnsuredInstalled(t: Chains, live: Live, tenant: string, x: Tenant, u: string)
    requires Inv(t, live) && Fits(live, Ensure(tenant, x))
    requires u in live[tenant := x]
    ensures Installed(Isolated(t, tenant, x), u, live[tenant := x][u])
  {
    if u == tenant {
      EnsuredSelf(t, tenant, x);
    } else {
      assert Installed(t, u, live[u]);
      assert Apart(tenant, x, u, live[u]);
      EnsuredOther(t, tenant, x, u, live[u]);
    }
  }

  lemma EnsuredSelf(t: Chains, tenant: string, x: Tenant)
    ensures Installed(Isolated(t, tenant, x), tenant, x)
  {
    NotAnchor(tenant);
    JumpsMembers(Anchor(t), tenant, x.bridge, x.vxlan, x.extra, IngressRule(tenant, x.bridge, Bridge));
    JumpsMembers(Anchor(t), tenant, x.bridge, x.vxlan, x.extra, IngressRule(tenant, x.vxlan, Vxlan));
  }

  lemma EnsuredOther(t: Chains, tenant: string, x: Tenant, u: string, y: Tenant)
    requires Installed(t, u, y) && FwChain(u) != FwChain(tenant)
    ensures Installed(Isolated(t, tenant, x), u, y)
  {
    NotAnchor(tenant);
    NotAnchor(u);
    JumpsMembers(Anchor(t), tenant, x.bridge, x.vxlan, x.extra, IngressRule(u, y.bridge, Bridge));
    JumpsMembers(Anchor(t), tenant, x.bridge, x.vxlan, x.extra, IngressRule(u, y.vxlan, Vxlan));
  }

  /** Ensuring a live tenant again leaves only jumps of live tenants exactly when no interface it had is dropped. */
  lemma StaleJump(t: Chains, live: Live, tenant: string, x: Tenant)
    requires Inv(t, live) && tenant in live && ApartFromOthers(live, tenant, x)
    ensures AllJumps(live[tenant := x], Anchor(Isolated(t, tenant, x))) <==> KeepsInterfaces(live[tenant], x)
  {
    NotAnchor(tenant);
    var was, rules := live[tenant], Anchor(Isolated(t, tenant, x));
    assert Installed(t, tenant, was);
    if KeepsInterfaces(was, x) {
      forall i | 0 <= i < |rules|
        ensures IsJump(live[tenant := x], rules[i])
      {
        EnsuredJump(t, live, tenant, x, rules[i]);
      }
    } else if was.bridge != "" && was.bridge != x.bridge {
      StaleRule(t, live, tenant, x, was.bridge, Bridge);
    } else {
      StaleRule(t, live, tenant, x, was.vxlan, Vxlan);
    }
  }

  lemma StaleRule(t: Chains, live: Live, tenant: string, x: Tenant, iface: string, kind: Kind)
    requires tenant in live && ApartFromOthers(live, tenant, x)
    requires IngressRule(tenant, iface, kind) in Anchor(t)
    requires iface != if kind == Bridge then x.bridge else x.vxlan
    ensures IngressRule(tenant, iface, kind) in Anchor(Isolated(t, tenant, x))
    ensures !AllJumps(live[tenant := x], Anchor(Isolated(t, tenant, x)))
  {
    NotAnchor(tenant);
    var r, rules := IngressRule(tenant, iface, kind), Anchor(Isolated(t, tenant, x));
    JumpsMembers(Anchor(t), tenant, x.bridge, x.vxlan, x.extra, r);
    KindsDiffer(tenant);
    var live' := live[tenant := x];
    forall u | u in live'
      ensures !JumpOf(u, live'[u], r)
    {
      assert u != tenant ==> Apart(tenant, x, u, live[u]);
    }
    var k :| 0 <= k < |rules| && rules[k] == r;
    assert !IsJump(live', rules[k]);
  }

  lemma KindsDiffer(tenant: string)
    ensures "tenant:" + tenant + ":ingress:" + KindName(Bridge) != "tenant:" + tenant + ":ingress:" + KindName(Vxlan)
  {
    var p := "tenant:" + tenant + ":ingress:";
    assert |p + KindName(Bridge)| == |p| + 6 && |p + KindName(Vxlan)| == |p| + 5;
  }

  /** What a dropped interface means: its traffic is still decided by the tenant's chain instead of falling through. */
  lemma StaleTraffic(t: Chains, live: Live, tenant: string, x: Tenant, pkt: Packet, depth: nat)
    requires Inv(t, live) && tenant in live && ApartFromOthers(live, tenant, x) && depth > 0
    requires Owns(live[tenant], pkt.inIf) && !Owns(x, pkt.inIf)
    ensures var t' := Isolated(t, tenant, x);
      Eval(t', Anchor(t'), pkt, depth) == Some(if Allows(x, pkt.outIf) then Accepted else Dropped)
  {
    NotAnchor(tenant);
    var was, t' := live[tenant], Isolated(t, tenant, x);
    var rules := Anchor(t');
    assert Installed(t, tenant, was);
    var r := IngressRule(tenant, pkt.inIf, if pkt.inIf == was.bridge then Bridge else Vxlan);
    JumpsMembers(Anchor(t), tenant, x.bridge, x.vxlan, x.extra, r);
    var k :| 0 <= k < |rules| && rules[k] == r;
    assert rules[k].inIf == Some(pkt.inIf);
    forall i | 0 <= i < |rules|
      ensures rules[i].inIf.Some? && rules[i].outIf.None?
      ensures rules[i].inIf.value == pkt.inIf ==> rules[i].target == Jump(FwChain(tenant))
    {
      RuleLeads(t, live, tenant, x, rules[i], pkt.inIf);
    }
    EvalAnchor(t', rules, tenant, x, pkt, depth);
  }

  lemma RuleLeads(t: Chains, live: Live, tenant: string, x: Tenant, r: Rule, iface: string)
    requires AllApart(live) && AllJumps(live, Anchor(t)) && tenant in live && Owns(live[tenant], iface)
    requires r in Jumps(Anchor(t), tenant, x.bridge, x.vxlan)
    ensures r.inIf.Some? && r.outIf.None? && (r.inIf.value == iface ==> r.target == Jump(FwChain(tenant)))
  {
    JumpsMembers(Anchor(t), tenant, x.bridge, x.vxlan, x.extra, r);
    if !JumpOf(tenant, x, r) {
      var i :| 0 <= i < |Anchor(t)| && Anchor(t)[i] == r;
      assert IsJump(live, Anchor(t)[i]);
      if r.inIf == Some(iface) {
        JumpOwner(live, r, tenant);
      }
    }
  }

  lemma {:induction false} RemoveFirstKeeps(rules: seq<Rule>, gone: Rule, r: Rule)
    ensures r in RemoveFirst(rules, gone) ==> r in rules
    ensures r in rules && r != gone ==> r in RemoveFirst(rules, gone)
  {
    if rules != [] {
      assert rules == [rules[0]] + rules[1..];
      RemoveFirstKeeps(rules[1..], gone, r);
    }
  }

  /** Removing a tenant's jump leaves the other chains, and every jump to another chain. */
  lemma UnjumpedKeeps(t: Chains, tenant: string, iface: string, kind: Kind, r: Rule)
    requires Unjumped(t, tenant, iface, kind).ok
    ensures var t' := Unjumped(t, tenant, iface, kind).chains;
      && (r in Anchor(t') ==> r in Anchor(t))
      && (r in Anchor(t) && r.target != Jump(FwChain(tenant)) ==> r in Anchor(t'))
      && (forall c | c != ANCHOR :: (c in t <==> c in t') && (c in t ==> t'[c] == t[c]))
  {
    RemoveFirstKeeps(Anchor(t), IngressRule(tenant, iface, kind), r);
  }

  lemma DeletedKeeps(t: Chains, tenant: string, bridge: string, vxlan: string, r: Rule, c: string)
    requires Deleted(t, tenant, bridge, vxlan).ok
    ensures var t' := Deleted(t, tenant, bridge, vxlan).chains;
      && (r in Anchor(t') ==> r in Anchor(t))
      && (r in Anchor(t) && r.target != Jump(FwChain(tenant)) ==> r in Anchor(t'))
      && (c != ANCHOR && c != FwChain(tenant) && c in t ==> c in t' && t'[c] == t[c])
  {
    NotAnchor(tenant);
    UnjumpedKeeps(t, tenant, bridge, Bridge, r);
    UnjumpedKeeps(Unjumped(t, tenant, bridge, Bridge).chains, tenant, vxlan, Vxlan, r);
  }

  /** A successful delete removes the tenant's chain and no other. */
  lemma DeletedGone(t: Chains, tenant: string, bridge: string, vxlan: string)
    requires Deleted(t, tenant, bridge, vxlan).ok
    ensures var t' := Deleted(t, tenant, bridge, vxlan).chains;
      FwChain(tenant) !in t' && forall c | c in t && c != FwChain(tenant) :: c in t' && (c != ANCHOR ==> t'[c] == t[c])
  {
    NotAnchor(tenant);
  }

  /** Success means no jump to the deleted chain is left. */
  lemma DeletedUnreferenced(t: Chains, tenant: string, bridge: string, vxlan: string, r: Rule)
    requires Deleted(t, tenant, bridge, vxlan).ok
    requires r in Anchor(Deleted(t, tenant, bridge, vxlan).chains)
    ensures r.target != Jump(FwChain(tenant))
  {
    NotAnchor(tenant);
    var b := Unjumped(Unjumped(t, tenant, bridge, Bridge).chains, tenant, vxlan, Vxlan).chains;
    var c := b[FwChain(tenant) := []];
    assert ANCHOR in c && c[ANCHOR] == Anchor(Deleted(t, tenant, bridge, vxlan).chains);
    assert !JumpsTo(c[ANCHOR], FwChain(tenant));
  }

  lemma {:induction false} RemoveFirstNoRepeats(rules: seq<Rule>, gone: Rule)
    requires NoRepeats(rules)
    ensures NoRepeats(RemoveFirst(rules, gone)) && gone !in RemoveFirst(rules, gone)
  {
    if rules != [] && rules[0] != gone {
      RemoveFirstNoRepeats(rules[1..], gone);
      RemoveFirstKeeps(rules[1..], gone, rules[0]);
      assert forall i | 0 <= i < |rules[1..]| :: rules[1..][i] == rules[i + 1];
    }
  }

  lemma UnjumpedNoRepeats(t: Chains, tenant: string, iface: string, kind: Kind)
    requires NoRepeats(Anchor(t))
    ensures NoRepeats(Anchor(Unjumped(t, tenant, iface, kind).chains))
  {
    RemoveFirstNoRepeats(Anchor(t), IngressRule(tenant, iface, kind));
  }

  lemma DeletedNoRepeats(t: Chains, tenant: string, bridge: string, vxlan: string)
    requires NoRepeats(Anchor(t))
    ensures NoRepeats(Anchor(Deleted(t, tenant, bridge, vxlan).chains))
  {
    NotAnchor(tenant);
    UnjumpedNoRepeats(t, tenant, bridge, Bridge);
    UnjumpedNoRepeats(Unjumped(t, tenant, bridge, Bridge).chains, tenant, vxlan, Vxlan);
  }

  lemma DeleteKeeps(t: Chains, live: Live, tenant: string, bridge: string, vxlan: string)
    requires Inv(t, live) && Fits(live, Delete(tenant, bridge, vxlan))
    requires Deleted(t, tenant, bridge, vxlan).ok
    ensures Inv(Deleted(t, tenant, bridge, vxlan).chains, live - {tenant})
  {
    var t' := Deleted(t, tenant, bridge, vxlan).chains;
    var live' := live - {tenant};
    DeletedNoRepeats(t, tenant, bridge, vxlan);
    forall i | 0 <= i < |Anchor(t')|
      ensures IsJump(live', Anchor(t')[i])
    {
      DeletedJump(t, live, tenant, bridge, vxlan, Anchor(t')[i]);
    }
    forall u | u in live'
      ensures Installed(t', u, live'[u])
    {
      DeletedInstalled(t, live, tenant, bridge, vxlan, u);
    }
  }

  lemma DeletedJump(t: Chains, live: Live, tenant: string, bridge: string, vxlan: string, r: Rule)
    requires AllJumps(live, Anchor(t)) && Deleted(t, tenant, bridge, vxlan).ok
    requires r in Anchor(Deleted(t, tenant, bridge, vxlan).chains)
    ensures IsJump(live - {tenant}, r)
  {
    DeletedKeeps(t, tenant, bridge, vxlan, r, ANCHOR);
    DeletedUnreferenced(t, tenant, bridge, vxlan, r);
    var i :| 0 <= i < |Anchor(t)| && Anchor(t)[i] == r;
    assert IsJump(live, Anchor(t)[i]);
    var u :| u in live && JumpOf(u, live[u], r);
    assert u in live - {tenant} && JumpOf(u, (live - {tenant})[u], r);
  }

  lemma DeletedInstalled(t: Chains, live: Live, tenant: string, bridge: string, vxlan: string, u: string)
    requires Inv(t, live) && Fits(live, Delete(tenant, bridge, vxlan))
    requires Deleted(t, tenant, bridge, vxlan).ok
    requires u in live && u != tenant
    ensures Installed(Deleted(t, tenant, bridge, vxlan).chains, u, live[u])
  {
    var x := live[u];
    NotAnchor(u);
    assert Installed(t, u, x);
    DeletedKeeps(t, tenant, bridge, vxlan, IngressRule(u, x.bridge, Bridge), FwChain(u));
    DeletedKeeps(t, tenant, bridge, vxlan, IngressRule(u, x.vxlan, Vxlan), FwChain(u));
  }

  // ----- when a delete succeeds -----

  /** Some chain besides the anchor and c itself jumps to c. */
  predicate ForeignJump(t: Chains, c: string) {
    exists n | n in t :: n != ANCHOR && n != c && JumpsTo(t[n], c)
  }

  /** Deleting a live tenant with its own interfaces succeeds exactly when no chain of other making jumps to its
      chain. */
  lemma DeleteSucceeds(t: Chains, live: Live, tenant: string)
    requires Inv(t, live) && tenant in live
    ensures Deleted(t, tenant, live[tenant].bridge, live[tenant].vxlan).ok <==> !ForeignJump(t, FwChain(tenant))
  {
    NotAnchor(tenant);
    var x, fw := live[tenant], FwChain(tenant);
    assert Installed(t, tenant, x);
    OwnJumpsGone(t, live, tenant);
    var a := Unjumped(t, tenant, x.bridge, Bridge).chains;
    var b := Unjumped(a, tenant, x.vxlan, Vxlan).chains;
    SameElsewhere(t, b, fw);
  }

  lemma SameElsewhere(t: Chains, b: Chains, fw: string)
    requires forall c | c != ANCHOR :: (c in t <==> c in b) && (c in t ==> b[c] == t[c])
    requires !JumpsTo(Anchor(b), fw) && fw != ANCHOR
    ensures Referenced(b[fw := []], fw) <==> ForeignJump(t, fw)
  {
    var c := b[fw := []];
    if Referenced(c, fw) {
      var n :| n in c && JumpsTo(c[n], fw);
      assert n != ANCHOR && n != fw && n in t && JumpsTo(t[n], fw);
    }
    if ForeignJump(t, fw) {
      var n :| n in t && n != ANCHOR && n != fw && JumpsTo(t[n], fw);
      assert n in c && JumpsTo(c[n], fw);
    }
  }

  /** Both jumps of a live tenant can be removed, and then none to its chain is left in the anchor. */
  lemma OwnJumpsGone(t: Chains, live: Live, tenant: string)
    requires Inv(t, live) && tenant in live
    ensures
      var x := live[tenant];
      var a := Unjumped(t, tenant, x.bridge, Bridge);
      && a.ok
      && var b := Unjumped(a.chains, tenant, x.vxlan, Vxlan);
      && b.ok && !JumpsTo(Anchor(b.chains), FwChain(tenant))
      && (forall c | c != ANCHOR :: (c in t <==> c in b.chains) && (c in t ==> b.chains[c] == t[c]))
  {
    var x := live[tenant];
    assert Installed(t, tenant, x);
    var r0, r1 := IngressRule(tenant, x.bridge, Bridge), IngressRule(tenant, x.vxlan, Vxlan);
    KindsDiffer(tenant);
    RemoveFirstKeeps(Anchor(t), r0, r1);
    var a := Unjumped(t, tenant, x.bridge, Bridge).chains;
    var b := Unjumped(a, tenant, x.vxlan, Vxlan).chains;
    UnjumpedNoRepeats(t, tenant, x.bridge, Bridge);
    forall i | 0 <= i < |Anchor(b)|
      ensures Anchor(b)[i].target != Jump(FwChain(tenant))
    {
      LeftJump(t, live, tenant, a, b, Anchor(b)[i]);
    }
  }

  lemma LeftJump(t: Chains, live: Live, tenant: string, a: Chains, b: Chains, r: Rule)
    requires Inv(t, live) && tenant in live && NoRepeats(Anchor(a))
    requires Unjumped(t, tenant, live[tenant].bridge, Bridge) == Outcome(true, a)
    requires Unjumped(a, tenant, live[tenant].vxlan, Vxlan) == Outcome(true, b)
    requires r in Anchor(b)
    ensures r.target != Jump(FwChain(tenant))
  {
    var x := live[tenant];
    UnjumpedKeeps(a, tenant, x.vxlan, Vxlan, r);
    UnjumpedKeeps(t, tenant, x.bridge, Bridge, r);
    RemoveFirstNoRepeats(Anchor(t), IngressRule(tenant, x.bridge, Bridge));
    RemoveFirstNoRepeats(Anchor(a), IngressRule(tenant, x.vxlan, Vxlan));
    var i :| 0 <= i < |Anchor(t)| && Anchor(t)[i] == r;
    assert IsJump(live, Anchor(t)[i]);
    var u :| u in live && JumpOf(u, live[u], r);
    assert u != tenant ==> Apart(u, live[u], tenant, x);
  }

  lemma StepKeepsInv(t: Chains, live: Live, op: Op, t': Chains)
    requires Inv(t, live) && Fits(live, op) && Succeeds(t, op, t')
    ensures Inv(t', LiveAfter(live, op))
  {
    match op
    case Ensure(tenant, x) => EnsureKeeps(t, live, tenant, x);
    case Delete(tenant, bridge, vxlan) => DeleteKeeps(t, live, tenant, bridge, vxlan);
  }

  /** The tenants live after a run. */
  function LiveAfterAll(live: Live, ops: seq<Op>): Live
    decreases |ops|
  {
    if ops == [] then live else LiveAfterAll(LiveAfter(live, ops[0]), ops[1..])
  }

  predicate IsRun(tables: seq<Chains>, live: Live, ops: seq<Op>)
    requires |tables| == |ops| + 1
    decreases |ops|
  {
    ops == [] || (
      && Fits(live, ops[0])
      && Succeeds(tables[0], ops[0], tables[1])
      && IsRun(tables[1..], LiveAfter(live, ops[0]), ops[1..]))
  }

  lemma {:induction false} RunInv(tables: seq<Chains>, live: Live, ops: seq<Op>)
    requires |tables| == |ops| + 1 && IsRun(tables, live, ops)
    requires Inv(tables[0], live)
    ensures Inv(tables[|ops|], LiveAfterAll(live, ops))
    decreases |ops|
  {
    if ops != [] {
      StepKeepsInv(tables[0], live, ops[0], tables[1]);
      RunInv(tables[1..], LiveAfter(live, ops[0]), ops[1..]);
    }
  }

  /** From any table with no anchor rules, after any run: exactly the live tenants' traffic is decided, each
      packet by its own tenant's rules. */
  lemma IsolationHolds(tables: seq<Chains>, ops: seq<Op>, pkt: Packet, depth: nat)
    requires |tables| == |ops| + 1 && IsRun(tables, map[], ops)
    requires Anchor(tables[0]) == [] && depth > 0
    ensures var live := LiveAfterAll(map[], ops);
      var v := Eval(tables[|ops|], Anchor(tables[|ops|]), pkt, depth);
      && (forall tenant | tenant in live && Owns(live[tenant], pkt.inIf) ::
            v == Some(if Allows(live[tenant], pkt.outIf) then Accepted else Dropped))
      && ((forall tenant | tenant in live :: !Owns(live[tenant], pkt.inIf)) ==> v == None)
  {
    var t := tables[|ops|];
    RunInv(tables, map[], ops);
    var live := LiveAfterAll(map[], ops);
    forall tenant | tenant in live && Owns(live[tenant], pkt.inIf)
      ensures Eval(t, Anchor(t), pkt, depth) ==
        Some(if Allows(live[tenant], pkt.outIf) then Accepted else Dropped)
    {
      TenantTraffic(t, live, tenant, pkt, depth);
    }
    if forall tenant | tenant in live :: !Owns(live[tenant], pkt.inIf) {
      OtherTraffic(t, live, pkt, depth);
    }
  }

  lemma IsolationHasNoJumps(tenant: string, x: Tenant, c: string)
    ensures !JumpsTo(IsolationRules(tenant, x), c)
  {
    AcceptsMeaning(tenant, x, "");
    var rules := IsolationRules(tenant, x);
    forall i | 0 <= i < |rules|
      ensures rules[i].target != Jump(c)
    {
      assert i < |Accepts(tenant, x)| ==> AcceptsOut(Accepts(tenant, x)[i]);
    }
  }

  /** The manager never makes a chain other than the anchor jump anywhere. */
  lemma StepAddsNoJump(t: Chains, op: Op, t': Chains, c: string)
    requires Succeeds(t, op, t') && ForeignJump(t', c)
    ensures ForeignJump(t, c)
  {
    var n :| n in t' && n != ANCHOR && n != c && JumpsTo(t'[n], c);
    match op
    case Ensure(tenant, x) =>
      IsolationHasNoJumps(tenant, x, c);
      assert n in t && t[n] == t'[n];
    case Delete(tenant, bridge, vxlan) =>
      assert n in t && t[n] == t'[n];
  }

  lemma {:induction false} RunAddsNoJump(tables: seq<Chains>, live: Live, ops: seq<Op>, c: string)
    requires |tables| == |ops| + 1 && IsRun(tables, live, ops)
    ensures ForeignJump(tables[|ops|], c) ==> ForeignJump(tables[0], c)
    decreases |ops|
  {
    if ops != [] {
      RunAddsNoJump(tables[1..], LiveAfter(live, ops[0]), ops[1..], c);
      if ForeignJump(tables[1], c) {
        StepAddsNoJump(tables[0], ops[0], tables[1], c);
      }
    }
  }

  /** After any run from a table without anchor rules and without jumps to the tenant's chain, deleting a live tenant
      with its own interfaces succeeds. */
  lemma RunDeleteSucceeds(tables: seq<Chains>, ops: seq<Op>, tenant: string)
    requires |tables| == |ops| + 1 && IsRun(tables, map[], ops)
    requires Anchor(tables[0]) == [] && !ForeignJump(tables[0], FwChain(tenant))
    requires tenant in LiveAfterAll(map[], ops)
    ensures var x := LiveAfterAll(map[], ops)[tenant];
      Deleted(tables[|ops|], tenant, x.bridge, x.vxlan).ok
  {
    RunInv(tables, map[], ops);
    DeleteSucceeds(tables[|ops|], LiveAfterAll(map[], ops), tenant);
    RunAddsNoJump(tables, map[], ops, FwChain(tenant));
  }
}
