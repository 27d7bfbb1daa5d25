/**
 What the record converter of the v0.16 migration computes from principals and signatures (class `Converter` of
 resources/scripts/migrate_v016.py): named and inferred domains, the index, the default domain, resolved names.
 */
module DomainIndex {
  import opened Common
  import opened Sorting
  import opened Records
  import opened Signatures

  // ----- Data model ---------------------------------------------------------------------------

  datatype Kind = Individual | Group | MailList | DomainKind | TenantKind | OtherKind

  /** A principal after JSON coercion; entries of `emails` that are not strings are already gone. */
  datatype Principal = Principal(kind: Kind, id: Option<int>, name: string, emails: seq<string>, tenant: string)

  datatype ConvertError = MalformedName | MissingDomain | NoDefaultDomain | MissingId | DuplicateAccount

  predicate IsAccountKind(kind: Kind) { kind.Individual? || kind.Group? }

  predicate IsMailKind(kind: Kind) { IsAccountKind(kind) || kind.MailList? }

  // ----- Addresses ----------------------------------------------------------------------------

  /** `addr.rpartition("@")` with a normalised domain; None without `@` or without a domain. */
  function SplitEmail(t: Texts, addr: string): Option<(string, string)> {
    if '@' !in addr then None
    else
      var at := LastAt(addr);
      var domain := t.stripLower(addr[at + 1..]);
      if domain == "" then None else Some((addr[..at], domain))
  }

  function LastAt(addr: string): (at: nat)
    requires '@' in addr
    ensures at < |addr| && addr[at] == '@' && '@' !in addr[at + 1..]
  {
    var last := |addr| - 1;
    if addr[last] == '@' then last
    else
      assert addr == addr[..last] + [addr[last]];
      var at := LastAt(addr[..last]);
      assert addr[at + 1..] == addr[..last][at + 1..] + [addr[last]];
      at
  }

  function AddressDomain(t: Texts, addr: string): set<string> {
    match SplitEmail(t, addr)
    case None => {}
    case Some((_, domain)) => {domain}
  }

  function EmailDomains(t: Texts, emails: seq<string>): set<string> {
    if emails == [] then {} else EmailDomains(t, emails[..|emails| - 1]) + AddressDomain(t, emails[|emails| - 1])
  }

  /** The domains one principal brings into the index. */
  function NamedDomains(t: Texts, p: Principal): set<string> {
    if p.kind.DomainKind? then
      if t.stripLower(p.name) == "" then {} else {t.stripLower(p.name)}
    else if IsMailKind(p.kind) then AddressDomain(t, p.name) + EmailDomains(t, p.emails)
    else {}
  }

  function SignatureDomain(t: Texts, s: Signature): set<string> {
    if DomainOf(t, s) == "" then {} else {DomainOf(t, s)}
  }

  ghost predicate NamedByPrincipal(t: Texts, principals: seq<Principal>, d: string) {
    exists i :: 0 <= i < |principals| && d in NamedDomains(t, principals[i])
  }

  ghost predicate NamedBySignature(t: Texts, signatures: seq<Signature>, d: string) {
    exists i :: 0 <= i < |signatures| && d in SignatureDomain(t, signatures[i])
  }

  /** A domain the principals or the signatures mention. */
  ghost predicate IsNamed(t: Texts, principals: seq<Principal>, signatures: seq<Signature>, d: string) {
    NamedByPrincipal(t, principals, d) || NamedBySignature(t, signatures, d)
  }

  /** The search of a principal's addresses: an address of its own name wins over the first one. */
  function InferFrom(t: Texts, name: string, emails: seq<string>, fallback: Option<string>): Option<string> {
    if emails == [] then fallback
    else
      match SplitEmail(t, emails[0])
      case None => InferFrom(t, name, emails[1..], fallback)
      case Some((local, domain)) =>
        if local != "" && local == name then Some(domain)
        else InferFrom(t, name, emails[1..], if fallback.None? then Some(domain) else fallback)
  }

  function InferDomain(t: Texts, p: Principal): Option<string> {
    match SplitEmail(t, p.name)
    case Some((_, domain)) => Some(domain)
    case None => InferFrom(t, p.name, p.emails, None)
  }

  lemma {:induction false} EmailIsNamed(t: Texts, emails: seq<string>, i: nat)
    requires i < |emails|
    ensures AddressDomain(t, emails[i]) <= EmailDomains(t, emails)
    decreases |emails|
  {
    if i == |emails| - 1 {
    } else {
      EmailIsNamed(t, emails[..|emails| - 1], i);
    }
  }

  lemma {:induction false} InferredFromEmails(t: Texts, name: string, emails: seq<string>, start: nat, fallback: Option<string>)
    requires start <= |emails| && (fallback.Some? ==> fallback.value in EmailDomains(t, emails))
    ensures var d := InferFrom(t, name, emails[start..], fallback);
            d.Some? ==> d.value in EmailDomains(t, emails)
    decreases |emails| - start
  {
    if start == |emails| {
    } else {
      EmailIsNamed(t, emails, start);
      assert emails[start..][1..] == emails[start + 1..];
      InferredFromEmails(t, name, emails, start + 1, fallback);
      match SplitEmail(t, emails[start])
      case None =>
      case Some((_, domain)) =>
        InferredFromEmails(t, name, emails, start + 1, if fallback.None? then Some(domain) else fallback);
    }
  }

  /** An address splits at its last `@`. */
  lemma AddressSplits(t: Texts, local: string, domain: string)
    requires '@' !in domain && t.stripLower(domain) != ""
    ensures SplitEmail(t, local + "@" + domain) == Some((local, t.stripLower(domain)))
  {
    var addr := local + "@" + domain;
    assert addr[|local|] == '@' && '@' in addr;
    assert addr[|local| + 1..] == domain && addr[..|local|] == local;
    LastAtIs(addr, |local|);
  }

  lemma LastAtIs(addr: string, at: nat)
    requires at < |addr| && addr[at] == '@' && '@' !in addr[at + 1..]
    ensures '@' in addr && LastAt(addr) == at
  {
    hide LastAt;
    var last := LastAt(addr);
    forall k | at < k < |addr|
      ensures addr[k] != '@'
    {
      assert addr[at + 1..][k - at - 1] == addr[k];
    }
    forall k | last < k < |addr|
      ensures addr[k] != '@'
    {
      assert addr[last + 1..][k - last - 1] == addr[k];
    }
  }

  /** The address is the principal's own: what stands before its `@` is the name. */
  predicate IsOwn(t: Texts, name: string, addr: string) {
    name != "" && SplitEmail(t, addr).Some? && SplitEmail(t, addr).value.0 == name
  }

  /** The first of the principal's own addresses decides, and without one the first address that has a domain. */
  lemma {:induction false} InferredExactly(t: Texts, name: string, emails: seq<string>, fallback: Option<string>, i: nat)
    requires i <= |emails|
    ensures (forall j :: 0 <= j < i ==> !IsOwn(t, name, emails[j])) && i < |emails| && IsOwn(t, name, emails[i]) ==>
              InferFrom(t, name, emails, fallback) == Some(SplitEmail(t, emails[i]).value.1)
    ensures (forall j :: 0 <= j < |emails| ==> !IsOwn(t, name, emails[j])) && fallback.Some? ==>
              InferFrom(t, name, emails, fallback) == fallback
    ensures (forall j :: 0 <= j < |emails| ==> !IsOwn(t, name, emails[j])) && fallback.None?
            && (forall j :: 0 <= j < i ==> SplitEmail(t, emails[j]).None?) ==>
              && (i == |emails| ==> InferFrom(t, name, emails, fallback) == None)
              && (i < |emails| && SplitEmail(t, emails[i]).Some? ==>
                    InferFrom(t, name, emails, fallback) == Some(SplitEmail(t, emails[i]).value.1))
    decreases |emails|
  {
    hide SplitEmail;
    if emails != [] {
      var rest := emails[1..];
      assert forall j :: 0 <= j < |rest| ==> rest[j] == emails[j + 1];
      var next := if SplitEmail(t, emails[0]).Some? && fallback.None? then Some(SplitEmail(t, emails[0]).value.1) else fallback;
      InferredExactly(t, name, rest, next, if i == 0 then 0 else i - 1);
    }
  }

  /** Whatever domain is inferred for an individual, group or list is one it brings into the index. */
  lemma InferredIsNamed(t: Texts, p: Principal)
    requires IsMailKind(p.kind) && InferDomain(t, p).Some?
    ensures InferDomain(t, p).value in NamedDomains(t, p)
  {
    assert p.emails[0..] == p.emails;
    InferredFromEmails(t, p.name, p.emails, 0, None);
  }

  // ----- Index --------------------------------------------------------------------------------

  /** What the converter's fields hold once the domains are built. */
  datatype Index = Index(tenants: map<string, Cid>, domains: map<string, Cid>, names: map<Cid, string>,
                         owners: map<Cid, Cid>, fallback: Option<Cid>)

  /** The last principal declaring a domain. */
  function LastDeclared(t: Texts, principals: seq<Principal>, d: string): Option<Principal> {
    if principals == [] then None
    else
      var last := principals[|principals| - 1];
      if last.kind.DomainKind? && t.stripLower(last.name) == d then Some(last)
      else LastDeclared(t, principals[..|principals| - 1], d)
  }

  predicate Declares(t: Texts, p: Principal, d: string) { p.kind == DomainKind && t.stripLower(p.name) == d }

  /** It is the principal that declares the domain and behind which none declares it. */
  lemma {:induction false} LastDeclaredExactly(t: Texts, principals: seq<Principal>, d: string, i: nat)
    ensures i < |principals| && Declares(t, principals[i], d) && (forall j :: i < j < |principals| ==> !Declares(t, principals[j], d))
            ==> LastDeclared(t, principals, d) == Some(principals[i])
    ensures (forall j :: 0 <= j < |principals| ==> !Declares(t, principals[j], d)) ==> LastDeclared(t, principals, d) == None
    decreases |principals|
  {
    if principals != [] && !Declares(t, principals[|principals| - 1], d) {
      LastDeclaredExactly(t, principals[..|principals| - 1], d, i);
    }
  }

  function MemberTenant(tenants: map<string, Cid>, tenant: string): Option<Cid> {
    if tenant != "" && tenant in tenants then Some(tenants[tenant]) else None
  }

  function DomainTenant(t: Texts, principals: seq<Principal>, tenants: map<string, Cid>, d: string): Option<Cid> {
    match LastDeclared(t, principals, d)
    case None => None
    case Some(p) => MemberTenant(tenants, p.tenant)
  }

  /** How many individuals, groups and lists have `d` as their own domain. */
  function Votes(t: Texts, principals: seq<Principal>, d: string): nat {
    if principals == [] then 0
    else
      var last := principals[|principals| - 1];
      Votes(t, principals[..|principals| - 1], d)
      + if IsMailKind(last.kind) && InferDomain(t, last) == Some(d) then 1 else 0
  }

  function Voters(t: Texts, principals: seq<Principal>, d: string): set<nat> {
    set i: nat | i < |principals| && principals[i].kind in {Individual, Group, MailList} && InferDomain(t, principals[i]) == Some(d)
  }

  /** Every voter counts once. */
  lemma {:induction false} VotesAreVoters(t: Texts, principals: seq<Principal>, d: string)
    ensures Votes(t, principals, d) == |Voters(t, principals, d)|
  {
    hide InferDomain;
    if principals == [] {
      assert Voters(t, principals, d) == {};
    } else {
      var last := |principals| - 1;
      VotesAreVoters(t, principals[..last], d);
      var before, all := Voters(t, principals[..last], d), Voters(t, principals, d);
      if principals[last].kind in {Individual, Group, MailList} && InferDomain(t, principals[last]) == Some(d) {
        assert all == before + {last};
      } else {
        assert all == before;
      }
    }
  }

  /** More votes win, then the name that sorts first. */
  ghost predicate Outvotes(t: Texts, principals: seq<Principal>, d: string, e: string) {
    var mine, theirs := Votes(t, principals, d), Votes(t, principals, e);
    mine > theirs || (mine == theirs && !LexLess(e, d))
  }

  ghost predicate Inverse(domains: map<string, Cid>, names: map<Cid, string>) {
    && (forall d :: d in domains ==> domains[d] in names && names[domains[d]] == d)
    && (forall c :: c in names ==> names[c] in domains && domains[names[c]] == c)
  }

  /** The domain index: exactly the named domains, one client id each, with the tenants that own them. */
  ghost predicate DomainsIndexed(t: Texts, principals: seq<Principal>, signatures: seq<Signature>, ix: Index) {
    && (forall d :: d in ix.domains <==> IsNamed(t, principals, signatures, d))
    && Inverse(ix.domains, ix.names)
    && OwnersIndexed(t, principals, ix.tenants, ix.names, ix.owners)
  }

  ghost predicate OwnersIndexed(t: Texts, principals: seq<Principal>, tenants: map<string, Cid>, names: map<Cid, string>,
                                owners: map<Cid, Cid>) {
    && (forall c :: c in owners <==> c in names && DomainTenant(t, principals, tenants, names[c]).Some?)
    && (forall c :: c in owners ==> DomainTenant(t, principals, tenants, names[c]) == Some(owners[c]))
  }

  /** There is a default domain unless there is no domain; it is the one most principals use. */
  ghost predicate DefaultPicked(t: Texts, principals: seq<Principal>, ix: Index) {
    match ix.fallback
    case None => ix.domains == map[]
    case Some(c) => c in ix.names && forall d :: d in ix.domains ==> Outvotes(t, principals, ix.names[c], d)
  }

  lemma DefaultExactly(t: Texts, principals: seq<Principal>, signatures: seq<Signature>, ix: Index)
    requires DomainsIndexed(t, principals, signatures, ix) && DefaultPicked(t, principals, ix)
    ensures ix.fallback.Some? <==> ix.domains != map[]
  {}

  // ----- Resolution ---------------------------------------------------------------------------

  function NameOf(names: map<Cid, string>, c: Cid): string { if c in names then names[c] else "" }

  ghost predicate Owns(ix: Index, tenant: string, c: Cid) {
    c in ix.owners && MemberTenant(ix.tenants, tenant) == Some(ix.owners[c])
  }

  /** The tenant's own domain that sorts first, if it owns any. */
  ghost predicate IsTenantDefault(ix: Index, tenant: string, found: Option<Cid>) {
    match found
    case None => forall c :: !Owns(ix, tenant, c)
    case Some(c) => Owns(ix, tenant, c) && forall d :: Owns(ix, tenant, d) ==> !LexLess(NameOf(ix.names, d), NameOf(ix.names, c))
  }

  function InIndex(ix: Index, local: string, d: string): Result<(string, Cid), ConvertError> {
    if d in ix.domains then Ok((local, ix.domains[d])) else Err(MissingDomain)
  }

  function OrFallback(ix: Index, name: string, found: Option<Cid>): Result<(string, Cid), ConvertError> {
    if found.Some? then Ok((name, found.value))
    else if ix.fallback.Some? then Ok((name, ix.fallback.value))
    else Err(NoDefaultDomain)
  }

  /** The local part and domain of a principal: its own name, its addresses, its tenant, the default. */
  ghost predicate Resolves(t: Texts, ix: Index, p: Principal, r: Result<(string, Cid), ConvertError>) {
    if '@' in p.name then
      match SplitEmail(t, p.name)
      case None => r == Err(MalformedName)
      case Some(parts) => r == InIndex(ix, parts.0, parts.1)
    else
      match InferDomain(t, p)
      case Some(d) => r == InIndex(ix, p.name, d)
      case None => exists found :: IsTenantDefault(ix, p.tenant, found) && r == OrFallback(ix, p.name, found)
  }

  /** A malformed name, or nothing anywhere that names a domain. */
  predicate Unresolvable(t: Texts, ix: Index, p: Principal) {
    if '@' in p.name then SplitEmail(t, p.name).None? else ix.domains == map[]
  }

  /**
   Neither an inferred domain nor the domain of a name is ever missing from the index, and the default domain is
   only missing when there is no domain at all: a mail principal fails to resolve exactly if its name is malformed
   or nothing names any domain.
   */
  lemma ResolutionNeverMisses(t: Texts, principals: seq<Principal>, signatures: seq<Signature>, ix: Index, p: Principal,
                              r: Result<(string, Cid), ConvertError>)
    requires DomainsIndexed(t, principals, signatures, ix) && DefaultPicked(t, principals, ix)
    requires p in principals && IsMailKind(p.kind) && Resolves(t, ix, p, r)
    ensures r.Ok? ==> r.value.1 in ix.names
    ensures r.Err? ==> r.error == if '@' in p.name then MalformedName else NoDefaultDomain
    ensures r.Err? <==> Unresolvable(t, ix, p)
  {
    var i :| 0 <= i < |principals| && principals[i] == p;
    if InferDomain(t, p).Some? {
      InferredIsNamed(t, p);
      assert NamedByPrincipal(t, principals, InferDomain(t, p).value);
    }
  }
}
