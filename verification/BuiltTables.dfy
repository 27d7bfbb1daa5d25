/**
 What the record converter of the v0.16 migration builds from principals and signatures (class `Converter` of
 resources/scripts/migrate_v016.py): tenants, domains, accounts, mailing lists and signatures with their client ids.
 */
module BuiltTables {
  import opened Common
  import opened Sorting
  import opened Records
  import opened Signatures
  import opened DomainIndex
  import Macros

  /**
   The input of a conversion; `w` is what macros in the settings expand against, `certificates` the number of
   certificates that can be exported, `singletons` the settings objects that are built besides SystemSettings.
   */
  datatype Input = Input(t: Texts, w: Macros.World, principals: seq<Principal>, signatures: seq<Signature>,
                         certificates: nat, singletons: set<string>)

  /** The converter's fields once domains are built and the default is picked. */
  ghost predicate Indexed(n: Input, ix: Index) {
    DomainsIndexed(n.t, n.principals, n.signatures, ix) && DefaultPicked(n.t, n.principals, ix)
  }

  // ----- Running client ids -------------------------------------------------------------------

  /** Records under consecutive created client ids. */
  function Numbered<T>(low: nat, records: seq<T>): map<Cid, T> {
    if records == [] then map[]
    else
      var last := |records| - 1;
      Numbered(low, records[..last])[Created(low + last) := records[last]]
  }

  lemma NumberedMore<T>(low: nat, records: seq<T>, more: T)
    ensures Numbered(low, records + [more]) == Numbered(low, records)[Created(low + |records|) := more]
  {
    assert (records + [more])[..|records|] == records;
  }

  lemma {:induction false} NumberedKeys<T>(low: nat, records: seq<T>)
    ensures |Numbered(low, records)| == |records|
    ensures forall c :: c in Numbered(low, records) <==> InSpan(c, low, low + |records|)
    ensures forall c :: InSpan(c, low, low + |records|) ==>
              c in Numbered(low, records) && Numbered(low, records)[c] == records[c.n - low]
  {
    if records == [] {
    } else {
      NumberedKeys(low, records[..|records| - 1]);
    }
  }

  ghost predicate InSpan(c: Cid, low: nat, high: nat) { c.Created? && low <= c.n < high }

  // ----- Accounts and lists -------------------------------------------------------------------

  ghost predicate AliasAt(t: Texts, ix: Index, email: string, a: Alias) {
    match SplitEmail(t, email)
    case None => false
    case Some(parts) => parts.0 == a.name && parts.1 in ix.domains && ix.domains[parts.1] == a.domain
  }

  ghost predicate IsAlias(t: Texts, ix: Index, emails: seq<string>, name: string, domain: Cid, a: Alias) {
    a.name != "" && a != Alias(name, domain) && exists i :: 0 <= i < |emails| && AliasAt(t, ix, emails[i], a)
  }

  /** The aliases are the other addresses, each once. */
  ghost predicate AliasesOf(t: Texts, ix: Index, emails: seq<string>, name: string, domain: Cid, aliases: seq<Alias>) {
    && (forall a :: a in aliases <==> IsAlias(t, ix, emails, name, domain, a))
    && (forall i, j :: 0 <= i < j < |aliases| ==> aliases[i] != aliases[j])
  }

  ghost predicate AccountOf(t: Texts, ix: Index, p: Principal, a: Account) {
    && Resolves(t, ix, p, Ok((a.name, a.domain)))
    && AliasesOf(t, ix, p.emails, a.name, a.domain, a.aliases)
    && a.isGroup == p.kind.Group? && a.tenant == MemberTenant(ix.tenants, p.tenant)
  }

  ghost predicate ListOf(t: Texts, ix: Index, p: Principal, l: MailingList) {
    && Resolves(t, ix, p, Ok((l.name, l.domain)))
    && AliasesOf(t, ix, p.emails, l.name, l.domain, l.aliases)
    && l.tenant == MemberTenant(ix.tenants, p.tenant)
  }

  /** A signature record carries its settings, names their domain and belongs to that domain's tenant. */
  ghost predicate SignatureOf(n: Input, ix: Index, s: Signature, k: Dkim) {
    && AlgorithmOf(n.t, s) == Some(k.algorithm) && PrivateKeyOf(n.t, n.w, s) == Some(k.privateKey)
    && k.selector == SelectorOf(n.t, s) && k.selector != "" && k.canonicalization == CanonicalizationOf(n.t, s)
    && k.domain in ix.names && ix.names[k.domain] == DomainOf(n.t, s)
    && k.tenant == DomainTenant(n.t, n.principals, ix.tenants, ix.names[k.domain])
  }

  /** One account for every individual and group, under its old id. */
  ghost predicate AccountsBuilt(t: Texts, ix: Index, principals: seq<Principal>, out: map<Cid, Account>) {
    && (forall i :: 0 <= i < |principals| && IsAccountKind(principals[i].kind) ==>
          principals[i].id.Some? && Restored(principals[i].id.value) in out
          && AccountOf(t, ix, principals[i], out[Restored(principals[i].id.value)]))
    && (forall c :: c in out ==>
          exists i :: 0 <= i < |principals| && IsAccountKind(principals[i].kind)
                      && principals[i].id.Some? && c == Restored(principals[i].id.value))
    && (forall i, j :: 0 <= i < j < |principals| && IsAccountKind(principals[i].kind) && IsAccountKind(principals[j].kind) ==>
          principals[i].id != principals[j].id)
  }

  /** Why the account of principal `n` cannot be built. */
  ghost predicate AccountFails(t: Texts, ix: Index, principals: seq<Principal>, n: nat, e: ConvertError) {
    && n < |principals| && IsAccountKind(principals[n].kind)
    && (Resolves(t, ix, principals[n], Err(e))
        || (e == MissingId && principals[n].id.None?)
        || (e == DuplicateAccount && principals[n].id.Some?
            && exists m :: 0 <= m < n && IsAccountKind(principals[m].kind) && principals[m].id == principals[n].id))
  }

  /** References of a built account or list name indexed domains and tenants. */
  ghost predicate LinkedTo(ix: Index, domain: Cid, aliases: seq<Alias>, tenant: Option<Cid>) {
    && domain in ix.names
    && (forall k :: 0 <= k < |aliases| ==> aliases[k].domain in ix.names)
    && (tenant.Some? ==> exists name :: name in ix.tenants && ix.tenants[name] == tenant.value)
  }

  lemma BuiltIsLinked(t: Texts, principals: seq<Principal>, signatures: seq<Signature>, ix: Index, p: Principal,
                      name: string, domain: Cid, aliases: seq<Alias>)
    requires DomainsIndexed(t, principals, signatures, ix) && DefaultPicked(t, principals, ix)
    requires p in principals && IsMailKind(p.kind) && Resolves(t, ix, p, Ok((name, domain)))
    requires AliasesOf(t, ix, p.emails, name, domain, aliases)
    ensures LinkedTo(ix, domain, aliases, MemberTenant(ix.tenants, p.tenant))
  {
    hide Resolves, DefaultPicked, IsNamed, OwnersIndexed, AliasAt;
    ResolutionNeverMisses(t, principals, signatures, ix, p, Ok((name, domain)));
    forall k | 0 <= k < |aliases|
      ensures aliases[k].domain in ix.names
    {
      assert aliases[k] in aliases;
      var i :| 0 <= i < |p.emails| && AliasAt(t, ix, p.emails[i], aliases[k]);
      AliasIndexed(t, ix, p.emails[i], aliases[k]);
    }
  }

  /** An alias names the domain of its address. */
  lemma AliasIndexed(t: Texts, ix: Index, email: string, a: Alias)
    requires AliasAt(t, ix, email, a) && Inverse(ix.domains, ix.names)
    ensures a.domain in ix.names && SplitEmail(t, email) == Some((a.name, ix.names[a.domain]))
  {}

  // ----- Tables -------------------------------------------------------------------------------

  /** The names that are not empty. */
  function NonEmpty(names: seq<string>): seq<string> {
    if names == [] then []
    else
      var last := names[|names| - 1];
      NonEmpty(names[..|names| - 1]) + if last == "" then [] else [last]
  }

  function TenantNames(principals: seq<Principal>): seq<string> {
    if principals == [] then []
    else
      var last := principals[|principals| - 1];
      TenantNames(principals[..|principals| - 1]) + if last.kind.TenantKind? then [last.name] else []
  }

  /** One record per tenant principal with a name, numbered in the order of names. */
  ghost predicate TenantsNumbered(principals: seq<Principal>, low: nat, names: seq<string>, tenants: map<Cid, string>) {
    && Ordered(names, false) && multiset(names) == multiset(NonEmpty(TenantNames(principals)))
    && tenants == Numbered(low, names)
  }

  /** The index leads to the last record of each name. */
  ghost predicate TenantsIndexed(tenants: map<string, Cid>, records: map<Cid, string>) {
    && (forall c :: c in records ==> records[c] in tenants)
    && (forall name :: name in tenants ==> tenants[name] in records && records[tenants[name]] == name)
    && (forall c :: c in records && records[c] in tenants && c.Created? && tenants[records[c]].Created? ==>
          c.n <= tenants[records[c]].n)
  }

  ghost predicate TenantsBuilt(n: Input, ix: Index, low: nat, tenants: map<Cid, string>) {
    && (exists names :: TenantsNumbered(n.principals, low, names, tenants))
    && TenantsIndexed(ix.tenants, tenants)
  }

  /** A record for every indexed domain, numbered in the order of names. */
  ghost predicate DomainsNumbered(n: Input, ix: Index, low: nat, records: seq<Domain>, domains: map<Cid, Domain>) {
    && domains == Numbered(low, records)
    && (forall i, j :: 0 <= i < j < |records| ==> !LexLess(records[j].name, records[i].name))
    && domains.Keys == ix.names.Keys
    && (forall c :: c in domains ==>
          domains[c] == Domain(ix.names[c], DomainTenant(n.t, n.principals, ix.tenants, ix.names[c])))
  }

  ghost predicate DomainsBuilt(n: Input, ix: Index, low: nat, domains: map<Cid, Domain>) {
    exists records :: DomainsNumbered(n, ix, low, records, domains)
  }

  function SortKey(p: Principal): int { if p.id.Some? then p.id.value else 0 }

  /** By old id, a list without one counting as zero; equal ids keep their order. */
  predicate ListBefore(principals: seq<Principal>, i: nat, j: nat)
    requires i < |principals| && j < |principals|
  {
    SortKey(principals[i]) < SortKey(principals[j]) || (SortKey(principals[i]) == SortKey(principals[j]) && i < j)
  }

  ghost predicate InListOrder(principals: seq<Principal>, order: seq<nat>) {
    && (forall k :: 0 <= k < |order| ==> order[k] < |principals|)
    && (forall i, j :: 0 <= i < j < |order| ==> ListBefore(principals, order[i], order[j]))
  }

  /** In that order the old ids rise, a missing one standing at zero, and where they are equal the places do. */
  lemma InOrderOfIds(principals: seq<Principal>, order: seq<nat>, i: nat, j: nat)
    requires InListOrder(principals, order) && i < j < |order|
    ensures order[i] < |principals| && order[j] < |principals|
    ensures match (principals[order[i]].id, principals[order[j]].id)
            case (Some(a), Some(b)) => a < b || (a == b && order[i] < order[j])
            case (Some(a), None) => a < 0 || (a == 0 && order[i] < order[j])
            case (None, Some(b)) => 0 < b || (b == 0 && order[i] < order[j])
            case (None, None) => order[i] < order[j]
  {}

  /** One record for every list that resolves, in the order of old ids. */
  ghost predicate ListsFrom(n: Input, ix: Index, owners: seq<nat>, records: seq<MailingList>) {
    && InListOrder(n.principals, owners) && |records| == |owners|
    && (forall i: nat :: i < |n.principals| ==>
          (i in owners <==> n.principals[i].kind.MailList? && !Unresolvable(n.t, ix, n.principals[i])))
    && (forall k :: 0 <= k < |owners| ==> ListOf(n.t, ix, n.principals[owners[k]], records[k]))
  }

  ghost predicate ListsBuilt(n: Input, ix: Index, low: nat, lists: map<Cid, MailingList>) {
    exists owners, records :: ListsFrom(n, ix, owners, records) && lists == Numbered(low, records)
  }

  /** One record for every usable signature of an indexed domain, in the order of signature ids. */
  ghost predicate SignaturesFrom(n: Input, ix: Index, owners: seq<nat>, records: seq<Dkim>) {
    && |records| == |owners| && (forall i, j :: 0 <= i < j < |owners| ==> owners[i] < owners[j])
    && (forall i: nat :: i in owners <==>
          i < |n.signatures| && IsUsable(n.t, n.w, n.signatures[i]) && DomainOf(n.t, n.signatures[i]) in ix.domains)
    && (forall k :: 0 <= k < |owners| ==> owners[k] < |n.signatures| && SignatureOf(n, ix, n.signatures[owners[k]], records[k]))
  }

  ghost predicate SignaturesBuilt(n: Input, ix: Index, low: nat, signatures: map<Cid, Dkim>) {
    exists owners, records :: SignaturesFrom(n, ix, owners, records) && signatures == Numbered(low, records)
  }

  /** The tables hold exactly the records of the input, under client ids drawn table after table. */
  ghost predicate Describes(n: Input, ix: Index, b: Tables) {
    var domains := |b.tenants|;
    var lists := domains + |b.domains|;
    var signatures := lists + |b.lists|;
    var certificates := signatures + |b.signatures|;
    && TenantsBuilt(n, ix, 0, b.tenants)
    && DomainsBuilt(n, ix, domains, b.domains)
    && AccountsBuilt(n.t, ix, n.principals, b.accounts)
    && ListsBuilt(n, ix, lists, b.lists)
    && SignaturesBuilt(n, ix, signatures, b.signatures)
    && |b.certificates| == n.certificates
    && forall c :: c in b.certificates <==> InSpan(c, certificates, certificates + n.certificates)
  }

  // ----- Links of built tables ----------------------------------------------------------------

  lemma AccountLinked(n: Input, ix: Index, accounts: map<Cid, Account>, c: Cid)
    requires Indexed(n, ix) && AccountsBuilt(n.t, ix, n.principals, accounts) && c in accounts
    ensures LinkedTo(ix, accounts[c].domain, accounts[c].aliases, accounts[c].tenant)
  {
    hide DomainsIndexed, DefaultPicked, Resolves, AliasesOf, LinkedTo;
    var i :| 0 <= i < |n.principals| && IsAccountKind(n.principals[i].kind)
             && n.principals[i].id.Some? && c == Restored(n.principals[i].id.value);
    var a := accounts[c];
    BuiltIsLinked(n.t, n.principals, n.signatures, ix, n.principals[i], a.name, a.domain, a.aliases);
  }

  lemma ListLinked(n: Input, ix: Index, low: nat, lists: map<Cid, MailingList>, c: Cid)
    requires Indexed(n, ix) && ListsBuilt(n, ix, low, lists) && c in lists
    ensures LinkedTo(ix, lists[c].domain, lists[c].aliases, lists[c].tenant)
  {
    hide DomainsIndexed, DefaultPicked, Resolves, AliasesOf, LinkedTo, Unresolvable;
    var owners, records :| ListsFrom(n, ix, owners, records) && lists == Numbered(low, records);
    NumberedKeys(low, records);
    var l, owner := lists[c], owners[c.n - low];
    assert owner in owners;
    BuiltIsLinked(n.t, n.principals, n.signatures, ix, n.principals[owner], l.name, l.domain, l.aliases);
  }

  lemma SignatureLinked(n: Input, ix: Index, low: nat, signatures: map<Cid, Dkim>, c: Cid)
    requires SignaturesBuilt(n, ix, low, signatures) && c in signatures
    ensures var k := signatures[c];
            k.domain in ix.names && k.tenant == DomainTenant(n.t, n.principals, ix.tenants, ix.names[k.domain])
  {
    hide DomainTenant, IsUsable, AlgorithmOf, PrivateKeyOf, SelectorOf, CanonicalizationOf, DomainOf, Numbered;
    var owners, records :| SignaturesFrom(n, ix, owners, records) && signatures == Numbered(low, records);
    NumberedKeys(low, records);
  }

  lemma LinkedIsIn(ix: Index, b: Tables, domain: Cid, aliases: seq<Alias>, tenant: Option<Cid>)
    requires TenantsIndexed(ix.tenants, b.tenants) && b.domains.Keys == ix.names.Keys && LinkedTo(ix, domain, aliases, tenant)
    ensures domain in b.domains && Known(b.tenants, tenant) && forall a :: a in aliases ==> a.domain in b.domains
  {}

  lemma OwnerIsIn(n: Input, ix: Index, b: Tables, d: string)
    requires TenantsIndexed(ix.tenants, b.tenants)
    ensures Known(b.tenants, DomainTenant(n.t, n.principals, ix.tenants, d))
  {
    hide LastDeclared;
  }

  /** Every reference of the built tables names a record in them. */
  lemma TablesLinked(n: Input, ix: Index, b: Tables)
    requires Indexed(n, ix) && Describes(n, ix, b)
    ensures AllLinked(b)
  {
    hide Indexed, TenantsIndexed, TenantsNumbered, AccountsBuilt, ListsBuilt, SignaturesBuilt, LinkedTo, DomainTenant, Known;
    forall c | c in b.domains
      ensures Known(b.tenants, b.domains[c].tenant)
    {
      OwnerIsIn(n, ix, b, ix.names[c]);
    }
    forall c | c in b.accounts
      ensures var a := b.accounts[c];
              a.domain in b.domains && Known(b.tenants, a.tenant) && forall x :: x in a.aliases ==> x.domain in b.domains
    {
      var a := b.accounts[c];
      AccountLinked(n, ix, b.accounts, c);
      LinkedIsIn(ix, b, a.domain, a.aliases, a.tenant);
    }
    forall c | c in b.lists
      ensures var l := b.lists[c];
              l.domain in b.domains && Known(b.tenants, l.tenant) && forall x :: x in l.aliases ==> x.domain in b.domains
    {
      var l := b.lists[c];
      ListLinked(n, ix, |b.tenants| + |b.domains|, b.lists, c);
      LinkedIsIn(ix, b, l.domain, l.aliases, l.tenant);
    }
    forall c | c in b.signatures
      ensures b.signatures[c].domain in b.domains && Known(b.tenants, b.signatures[c].tenant)
    {
      SignatureLinked(n, ix, |b.tenants| + |b.domains| + |b.lists|, b.signatures, c);
      OwnerIsIn(n, ix, b, ix.names[b.signatures[c].domain]);
    }
  }

  lemma AccountsRestored(t: Texts, ix: Index, principals: seq<Principal>, accounts: map<Cid, Account>)
    requires AccountsBuilt(t, ix, principals, accounts)
    ensures forall c :: c in accounts ==> c.Restored?
  {}

  lemma TenantSpan(n: Input, ix: Index, low: nat, tenants: map<Cid, string>)
    requires TenantsBuilt(n, ix, low, tenants)
    ensures forall c :: c in tenants <==> InSpan(c, low, low + |tenants|)
  {
    hide TenantsIndexed, Ordered, NonEmpty, TenantNames;
    var names :| TenantsNumbered(n.principals, low, names, tenants);
    NumberedKeys(low, names);
  }

  lemma DomainSpan(n: Input, ix: Index, low: nat, domains: map<Cid, Domain>)
    requires DomainsBuilt(n, ix, low, domains)
    ensures forall c :: c in domains <==> InSpan(c, low, low + |domains|)
  {
    hide DomainTenant, LexLess;
    var records :| DomainsNumbered(n, ix, low, records, domains);
    NumberedKeys(low, records);
  }

  lemma ListSpan(n: Input, ix: Index, low: nat, lists: map<Cid, MailingList>)
    requires ListsBuilt(n, ix, low, lists)
    ensures forall c :: c in lists <==> InSpan(c, low, low + |lists|)
  {
    hide ListsFrom;
    var owners, records :| ListsFrom(n, ix, owners, records) && lists == Numbered(low, records);
    NumberedKeys(low, records);
  }

  lemma SignatureSpan(n: Input, ix: Index, low: nat, signatures: map<Cid, Dkim>)
    requires SignaturesBuilt(n, ix, low, signatures)
    ensures forall c :: c in signatures <==> InSpan(c, low, low + |signatures|)
  {
    hide SignaturesFrom;
    var owners, records :| SignaturesFrom(n, ix, owners, records) && signatures == Numbered(low, records);
    NumberedKeys(low, records);
  }

  /** No client id stands for two built records. */
  lemma TablesApart(n: Input, ix: Index, b: Tables)
    requires Describes(n, ix, b)
    ensures Apart(b)
  {
    hide TenantsBuilt, DomainsBuilt, AccountsBuilt, ListsBuilt, SignaturesBuilt, Apart;
    TenantSpan(n, ix, 0, b.tenants);
    DomainSpan(n, ix, |b.tenants|, b.domains);
    ListSpan(n, ix, |b.tenants| + |b.domains|, b.lists);
    SignatureSpan(n, ix, |b.tenants| + |b.domains| + |b.lists|, b.signatures);
    AccountsRestored(n.t, ix, n.principals, b.accounts);
    SpansApart(b, |b.tenants|, |b.tenants| + |b.domains|, |b.tenants| + |b.domains| + |b.lists|,
               |b.tenants| + |b.domains| + |b.lists| + |b.signatures|);
  }

  lemma SpansApart(b: Tables, n1: nat, n2: nat, n3: nat, n4: nat)
    requires n1 <= n2 <= n3 <= n4
    requires forall c :: c in b.tenants ==> InSpan(c, 0, n1)
    requires forall c :: c in b.domains ==> InSpan(c, n1, n2)
    requires forall c :: c in b.accounts ==> c.Restored?
    requires forall c :: c in b.lists ==> InSpan(c, n2, n3)
    requires forall c :: c in b.signatures ==> InSpan(c, n3, n4)
    requires forall c :: c in b.certificates ==> c.Created? && n4 <= c.n
    ensures Apart(b)
  {}

  lemma FailureIsNotMissing(n: Input, ix: Index, e: ConvertError)
    requires Indexed(n, ix)
    requires exists i :: AccountFails(n.t, ix, n.principals, i, e)
    ensures e != MissingDomain
  {
    hide DomainsIndexed, DefaultPicked, Resolves;
    var i: nat :| AccountFails(n.t, ix, n.principals, i, e);
    if Resolves(n.t, ix, n.principals[i], Err(e)) {
      ResolutionNeverMisses(n.t, n.principals, n.signatures, ix, n.principals[i], Err(e));
    }
  }
}
