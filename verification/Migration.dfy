/**
 What becomes of a principal (resources/scripts/migrate_v016.py), said without client ids, tables or indexes: its
 address, the addresses it is also known under, and whether it is exported.
 */
module Migration {
  import opened Common
  import opened Sorting
  import opened Records
  import opened Signatures
  import opened DomainIndex
  import opened BuiltTables
  import opened Converter

  // ----- Who owns a domain --------------------------------------------------------------------

  ghost predicate IsTenant(n: Input, name: string) {
    name != "" && exists i :: 0 <= i < |n.principals| && n.principals[i].kind == TenantKind && n.principals[i].name == name
  }

  /** The last principal that declares the domain belongs to the tenant. */
  ghost predicate OwnedBy(n: Input, d: string, tenant: string) {
    && d != "" && IsTenant(n, tenant)
    && exists i :: LastDeclarer(n, d, i) && n.principals[i].tenant == tenant
  }

  ghost predicate LastDeclarer(n: Input, d: string, i: int) {
    && 0 <= i < |n.principals| && Declares(n.t, n.principals[i], d)
    && forall j :: i < j < |n.principals| ==> !Declares(n.t, n.principals[j], d)
  }

  lemma {:induction false} NonEmptyHolds(names: seq<string>, name: string)
    ensures name in NonEmpty(names) <==> name in names && name != ""
  {
    if names != [] {
      var last := |names| - 1;
      assert names == names[..last] + [names[last]];
      NonEmptyHolds(names[..last], name);
    }
  }

  lemma {:induction false} TenantNamesHold(principals: seq<Principal>, name: string)
    ensures name in TenantNames(principals) <==>
              exists i :: 0 <= i < |principals| && principals[i].kind == TenantKind && principals[i].name == name
  {
    if principals != [] {
      var last := |principals| - 1;
      TenantNamesHold(principals[..last], name);
      if i :| 0 <= i < last && principals[i].kind == TenantKind && principals[i].name == name {
        assert principals[..last][i] == principals[i];
      }
    }
  }

  /** The tenants of the index are the named tenant principals, each under its own client id. */
  lemma TenantsAre(n: Input, ix: Index, low: nat, tenants: map<Cid, string>, name: string)
    requires TenantsBuilt(n, ix, low, tenants)
    ensures name in ix.tenants <==> IsTenant(n, name)
    ensures forall other :: name in ix.tenants && other in ix.tenants && ix.tenants[name] == ix.tenants[other] ==> name == other
  {
    hide Numbered, TenantNames, NonEmpty, Ordered, IsTenant;
    var names :| TenantsNumbered(n.principals, low, names, tenants);
    NumberedKeys(low, names);
    TenantIsListed(n, name);
    assert name in names <==> name in NonEmpty(TenantNames(n.principals)) by {
      assert name in multiset(names) <==> name in multiset(NonEmpty(TenantNames(n.principals)));
    }
    if name in names {
      var k :| 0 <= k < |names| && names[k] == name;
      assert InSpan(Created(low + k), low, low + |names|);
      assert tenants[Created(low + k)] == name;
    }
    if name in ix.tenants {
      assert tenants[ix.tenants[name]] == name;
    }
  }

  lemma TenantIsListed(n: Input, name: string)
    ensures IsTenant(n, name) <==> name in NonEmpty(TenantNames(n.principals))
  {
    hide TenantNames, NonEmpty;
    NonEmptyHolds(TenantNames(n.principals), name);
    TenantNamesHold(n.principals, name);
  }

  /** A declared domain is named. */
  lemma DeclaredIsNamed(n: Input, d: string, i: int)
    requires LastDeclarer(n, d, i) && d != ""
    ensures IsNamed(n.t, n.principals, n.signatures, d)
  {
    assert d in NamedDomains(n.t, n.principals[i]);
    assert NamedByPrincipal(n.t, n.principals, d);
  }

  lemma LastDeclarerIs(n: Input, d: string)
    ensures LastDeclared(n.t, n.principals, d).Some? ==>
              exists i :: LastDeclarer(n, d, i) && LastDeclared(n.t, n.principals, d) == Some(n.principals[i])
    ensures forall i :: LastDeclarer(n, d, i) ==> LastDeclared(n.t, n.principals, d) == Some(n.principals[i])
  {
    hide LastDeclared;
    forall i | LastDeclarer(n, d, i)
      ensures LastDeclared(n.t, n.principals, d) == Some(n.principals[i])
    {
      LastDeclaredExactly(n.t, n.principals, d, i);
    }
    if LastDeclared(n.t, n.principals, d).Some? {
      LastDeclaredExactly(n.t, n.principals, d, 0);
      var i := LastOf(n, d, |n.principals|);
    }
  }

  lemma {:induction false} LastOf(n: Input, d: string, k: nat) returns (i: int)
    requires k <= |n.principals| && exists j :: 0 <= j < k && Declares(n.t, n.principals[j], d)
    requires forall j :: k <= j < |n.principals| ==> !Declares(n.t, n.principals[j], d)
    ensures LastDeclarer(n, d, i)
  {
    i := k - 1;
    if !Declares(n.t, n.principals[i], d) {
      i := LastOf(n, d, k - 1);
    }
  }

  /** The tenant of an indexed domain. */
  lemma OwnsExactly(n: Input, ix: Index, low: nat, tenants: map<Cid, string>, tenant: string, c: Cid)
    requires Indexed(n, ix) && TenantsBuilt(n, ix, low, tenants)
    ensures Owns(ix, tenant, c) <==> c in ix.names && OwnedBy(n, ix.names[c], tenant)
  {
    hide TenantsBuilt, IsTenant, DefaultPicked, LastDeclared, IsNamed;
    TenantsAre(n, ix, low, tenants, tenant);
    assert !IsTenant(n, "") by { NoEmptyTenant(n); }
    if c in ix.names {
      var d := ix.names[c];
      LastDeclarerIs(n, d);
      NamesNotEmpty(n, ix, c);
      if LastDeclared(n.t, n.principals, d).Some? {
        var p := LastDeclared(n.t, n.principals, d).value;
        TenantsAre(n, ix, low, tenants, p.tenant);
      }
    }
  }

  lemma NoEmptyTenant(n: Input)
    ensures !IsTenant(n, "")
  {}

  lemma NamesNotEmpty(n: Input, ix: Index, c: Cid)
    requires Indexed(n, ix) && c in ix.names
    ensures ix.names[c] != "" && IsNamed(n.t, n.principals, n.signatures, ix.names[c])
  {
    var d := ix.names[c];
    assert d in ix.domains;
    if NamedByPrincipal(n.t, n.principals, d) {
      var i :| 0 <= i < |n.principals| && d in NamedDomains(n.t, n.principals[i]);
      NotEmpty(n.t, n.principals[i]);
    }
  }

  lemma NotEmpty(t: Texts, p: Principal)
    ensures "" !in NamedDomains(t, p)
  {
    EmailsNotEmpty(t, p.emails);
  }

  lemma {:induction false} EmailsNotEmpty(t: Texts, emails: seq<string>)
    ensures "" !in EmailDomains(t, emails)
  {
    if emails != [] {
      EmailsNotEmpty(t, emails[..|emails| - 1]);
    }
  }

  // ----- Where a principal is at home ---------------------------------------------------------

  /** Nobody names a domain more often, and of those named as often none sorts before it. */
  ghost predicate MostUsed(n: Input, d: string) {
    && IsNamed(n.t, n.principals, n.signatures, d)
    && forall e :: IsNamed(n.t, n.principals, n.signatures, e) ==>
         var mine, theirs := |Voters(n.t, n.principals, d)|, |Voters(n.t, n.principals, e)|;
         mine > theirs || (mine == theirs && !LexLess(e, d))
  }

  /** The address of a principal: its own name, else its name at its inferred domain, its tenant's, or the default. */
  ghost predicate Home(n: Input, p: Principal, name: string, d: string) {
    if '@' in p.name then SplitEmail(n.t, p.name) == Some((name, d))
    else
      && name == p.name
      && match InferFrom(n.t, p.name, p.emails, None)
         case Some(e) => d == e
         case None =>
           if exists e :: OwnedBy(n, e, p.tenant) then
             OwnedBy(n, d, p.tenant) && forall e :: OwnedBy(n, e, p.tenant) ==> !LexLess(e, d)
           else MostUsed(n, d)
  }

  /** What a resolved name says about the address. */
  lemma ResolvedIsHome(n: Input, ix: Index, low: nat, tenants: map<Cid, string>, p: Principal, name: string, c: Cid)
    requires Indexed(n, ix) && TenantsBuilt(n, ix, low, tenants)
    requires p in n.principals && IsMailKind(p.kind) && Resolves(n.t, ix, p, Ok((name, c)))
    ensures c in ix.names && Home(n, p, name, ix.names[c])
  {
    hide TenantsBuilt, IsNamed, OwnersIndexed, OwnedBy, Owns, MostUsed, SplitEmail, InferFrom;
    ResolutionNeverMisses(n.t, n.principals, n.signatures, ix, p, Ok((name, c)));
    if '@' !in p.name {
      NoAt(n.t, p.name);
      if InferFrom(n.t, p.name, p.emails, None).None? {
        var found :| IsTenantDefault(ix, p.tenant, found) && Ok((name, c)) == OrFallback(ix, name, found);
        AllOwned(n, ix, low, tenants, p.tenant);
        if found.None? {
          DefaultIsMostUsed(n, ix);
        } else {
          LeastOwned(n, ix, p.tenant, c);
        }
      }
    }
  }

  lemma NoAt(t: Texts, name: string)
    requires '@' !in name
    ensures SplitEmail(t, name) == None
  {}

  lemma AllOwned(n: Input, ix: Index, low: nat, tenants: map<Cid, string>, tenant: string)
    requires Indexed(n, ix) && TenantsBuilt(n, ix, low, tenants)
    ensures forall c :: Owns(ix, tenant, c) <==> c in ix.names && OwnedBy(n, ix.names[c], tenant)
    ensures forall d :: OwnedBy(n, d, tenant) ==> d in ix.domains && ix.domains[d] in ix.names && ix.names[ix.domains[d]] == d
  {
    hide Owns, TenantsBuilt, DefaultPicked;
    forall c
      ensures Owns(ix, tenant, c) <==> c in ix.names && OwnedBy(n, ix.names[c], tenant)
    {
      OwnsExactly(n, ix, low, tenants, tenant, c);
    }
    forall d | OwnedBy(n, d, tenant)
      ensures d in ix.domains && ix.domains[d] in ix.names && ix.names[ix.domains[d]] == d
    {
      var i :| LastDeclarer(n, d, i) && n.principals[i].tenant == tenant;
      DeclaredIsNamed(n, d, i);
    }
  }

  lemma LeastOwned(n: Input, ix: Index, tenant: string, c: Cid)
    requires IsTenantDefault(ix, tenant, Some(c))
    requires forall c :: Owns(ix, tenant, c) <==> c in ix.names && OwnedBy(n, ix.names[c], tenant)
    requires forall d :: OwnedBy(n, d, tenant) ==> d in ix.domains && ix.domains[d] in ix.names && ix.names[ix.domains[d]] == d
    ensures c in ix.names && OwnedBy(n, ix.names[c], tenant)
    ensures forall e :: OwnedBy(n, e, tenant) ==> !LexLess(e, ix.names[c])
  {
    hide Owns, OwnedBy, LexLess;
    forall e | OwnedBy(n, e, tenant)
      ensures !LexLess(e, ix.names[c])
    {
      assert Owns(ix, tenant, ix.domains[e]);
    }
  }

  lemma DefaultIsMostUsed(n: Input, ix: Index)
    requires Indexed(n, ix) && ix.fallback.Some?
    ensures ix.fallback.value in ix.names && MostUsed(n, ix.names[ix.fallback.value])
  {
    hide IsNamed, OwnersIndexed, Voters;
    var d := ix.names[ix.fallback.value];
    VotesAreVoters(n.t, n.principals, d);
    forall e | IsNamed(n.t, n.principals, n.signatures, e)
      ensures var mine, theirs := |Voters(n.t, n.principals, d)|, |Voters(n.t, n.principals, e)|;
              mine > theirs || (mine == theirs && !LexLess(e, d))
    {
      VotesAreVoters(n.t, n.principals, e);
      assert Outvotes(n.t, n.principals, d, e);
    }
  }

  // ----- What is exported ---------------------------------------------------------------------

  /** The client id stands for a domain of that name, created before operation `i`. */
  ghost predicate NamedBefore(ops: seq<Op>, i: int, c: Cid, d: string) {
    exists j, domain :: j < i && Holds(ops, j, c, DomainRecord(domain)) && domain.name == d
  }

  /** An alias stands for the address. */
  ghost predicate Stands(ops: seq<Op>, i: int, a: Alias, name: string, d: string) {
    a.name == name && NamedBefore(ops, i, a.domain, d)
  }

  /** The address is one of the principal's, at an accepted domain, and not the principal's own. */
  ghost predicate IsOtherAddress(n: Input, p: Principal, name: string, d: string, alias: string, e: string) {
    && alias != "" && '@' !in alias && n.t.isDomainName(e) && (alias, e) != (name, d)
    && exists k :: 0 <= k < |p.emails| && SplitEmail(n.t, p.emails[k]) == Some((alias, e))
  }

  /** The name without its `@`s, if something is left; names without `@` stay as they are. */
  ghost predicate Repaired(n: Input, name: string, repaired: string) {
    if '@' !in name then repaired == name
    else repaired == n.t.strip(WithoutAt(name)) && repaired != "" && '@' !in repaired
  }

  ghost predicate AccountExported(n: Input, ops: seq<Op>, p: Principal, name: string, d: string, j: int, a: Account) {
    && p.id.Some? && Holds(ops, j, Restored(p.id.value), AccountRecord(a))
    && a.isGroup == (p.kind == Group) && Repaired(n, name, a.name) && NamedBefore(ops, j, a.domain, d)
    && (a.tenant.Some? <==> IsTenant(n, p.tenant))
    && (a.tenant.Some? ==> exists k :: k < j && Holds(ops, k, a.tenant.value, TenantRecord(p.tenant)))
    && Distinct(a.aliases)
    && (forall x :: x in a.aliases ==> exists alias, e :: IsOtherAddress(n, p, name, d, alias, e) && Stands(ops, j, x, alias, e))
    && (forall alias, e :: IsOtherAddress(n, p, name, d, alias, e) ==> exists x :: x in a.aliases && Stands(ops, j, x, alias, e))
  }

  /** The tables behind a conversion. */
  ghost predicate Behind(n: Input, ix: Index, built: Tables, kept: Tables, ops: seq<Op>) {
    && Indexed(n, ix) && Describes(n, ix, built) && Validated(n.t, built, kept)
    && Conserves(CollectionsOf(kept), ops) && Staged(ops)
  }

  /** Validation keeps the domains with an accepted name. */
  lemma KeptDomain(n: Input, ix: Index, built: Tables, kept: Tables, cid: Cid)
    requires Describes(n, ix, built) && Validated(n.t, built, kept) && cid in ix.names
    ensures cid in kept.domains <==> n.t.isDomainName(ix.names[cid])
    ensures cid in kept.domains ==> kept.domains[cid].name == ix.names[cid]
  {
    hide Describes, AccountsValidated;
    NamesBuilt(n, ix, built, cid);
  }

  lemma ConversionIsBehind(n: Input, ix: Index, built: Tables, kept: Tables, ops: seq<Op>)
    requires Converted(n, ix, built, kept, ops)
    ensures Behind(n, ix, built, kept, ops)
  {
    hide Indexed, Describes, Validated, Conserves, CollectionsOf, Staged, Holds, ReferencesBefore, DanglesOrNot;
  }

  /** A kept domain is created before every account, list and signature. */
  lemma KeptIsBefore(n: Input, ix: Index, built: Tables, kept: Tables, ops: seq<Op>, j: int, c: Cid, r: Record, cid: Cid)
    requires Behind(n, ix, built, kept, ops) && Holds(ops, j, c, r) && !r.TenantRecord? && !r.DomainRecord?
    requires cid in ix.names
    ensures forall d :: NamedBefore(ops, j, cid, d) <==> n.t.isDomainName(ix.names[cid]) && d == ix.names[cid]
  {
    hide Staged, Holds, CollectionsOf, Validated, Indexed, Describes, Conserves;
    KeptDomain(n, ix, built, kept, cid);
    if cid in kept.domains {
      var domain := DomainRecord(kept.domains[cid]);
      var k := CreatedAt(kept, ops, cid, domain);
      CreatedInOrder(ops, k, cid, domain, j, c, r);
    }
    forall d | NamedBefore(ops, j, cid, d)
      ensures n.t.isDomainName(ix.names[cid]) && d == ix.names[cid]
    {
      var k, domain :| k < j && Holds(ops, k, cid, DomainRecord(domain)) && domain.name == d;
      ExportedIsIn(kept, ops, k, cid, DomainRecord(domain));
    }
  }

  lemma NamesBuilt(n: Input, ix: Index, built: Tables, cid: Cid)
    requires Describes(n, ix, built)
    ensures cid in built.domains <==> cid in ix.names
    ensures cid in ix.names ==> built.domains[cid].name == ix.names[cid]
  {
    hide TenantsBuilt, AccountsBuilt, ListsBuilt, SignaturesBuilt, DomainTenant, Numbered, LexLess;
    var records :| DomainsNumbered(n, ix, |built.tenants|, records, built.domains);
  }

  /** A record of the kept tables is created by some operation. */
  lemma CreatedAt(kept: Tables, ops: seq<Op>, c: Cid, r: Record) returns (j: nat)
    requires Conserves(CollectionsOf(kept), ops) && IsIn(kept, c, r)
    ensures Holds(ops, j, c, r)
  {
    hide CollectionsOf, Holds, HasRecord;
    CollectionsHold(kept, c, r);
    var k :| Holds(ops, k, c, r);
    assert k >= 0 by { InRange(ops, k, c, r); }
    j := k;
  }

  lemma InRange(ops: seq<Op>, j: int, c: Cid, r: Record)
    requires Holds(ops, j, c, r)
    ensures j >= 0
  {}

  /** A tenant is created before everything else, under its name. */
  lemma TenantIsBefore(n: Input, ix: Index, built: Tables, kept: Tables, ops: seq<Op>, j: int, c: Cid, r: Record, tenant: string)
    requires Behind(n, ix, built, kept, ops) && Holds(ops, j, c, r) && !r.TenantRecord?
    ensures var cid := MemberTenant(ix.tenants, tenant);
            && (cid.Some? <==> IsTenant(n, tenant))
            && (cid.Some? ==> exists k :: k < j && Holds(ops, k, cid.value, TenantRecord(tenant)))
  {
    hide Staged, Holds, CollectionsOf, Indexed, AccountsValidated, BadDomains, IsTenant, Conserves, DomainsBuilt;
    hide AccountsBuilt, ListsBuilt, SignaturesBuilt;
    TenantsAre(n, ix, 0, built.tenants, tenant);
    NoEmptyTenant(n);
    if MemberTenant(ix.tenants, tenant).Some? {
      var cid := ix.tenants[tenant];
      var k := CreatedAt(kept, ops, cid, TenantRecord(tenant)) by {
        assert TenantsIndexed(ix.tenants, built.tenants);
      }
      CreatedInOrder(ops, k, cid, TenantRecord(tenant), j, c, r);
    }
  }

  /** The aliases of a built account are its other addresses at indexed domains. */
  lemma AliasMeans(n: Input, ix: Index, p: Principal, name: string, d: Cid, a: Alias)
    requires Indexed(n, ix) && p in n.principals && IsMailKind(p.kind) && d in ix.names
    ensures IsAlias(n.t, ix, p.emails, name, d, a) <==>
              && a.name != "" && a.domain in ix.names && (a.name, ix.names[a.domain]) != (name, ix.names[d])
              && exists k :: 0 <= k < |p.emails| && SplitEmail(n.t, p.emails[k]) == Some((a.name, ix.names[a.domain]))
  {
    hide IsNamed, OwnersIndexed, DefaultPicked, SplitEmail;
    if IsAlias(n.t, ix, p.emails, name, d, a) {
      var k :| 0 <= k < |p.emails| && AliasAt(n.t, ix, p.emails[k], a);
      AliasIndexed(n.t, ix, p.emails[k], a);
    }
    if a.domain in ix.names {
      if k :| 0 <= k < |p.emails| && SplitEmail(n.t, p.emails[k]) == Some((a.name, ix.names[a.domain])) {
        assert AliasAt(n.t, ix, p.emails[k], a);
      }
    }
  }

  /** The domain of every address of a mail principal is indexed. */
  lemma AddressIndexed(n: Input, ix: Index, p: Principal, k: nat)
    requires Indexed(n, ix) && p in n.principals && IsMailKind(p.kind) && k < |p.emails| && SplitEmail(n.t, p.emails[k]).Some?
    ensures var e := SplitEmail(n.t, p.emails[k]).value.1;
            e in ix.domains && ix.domains[e] in ix.names && ix.names[ix.domains[e]] == e
  {
    hide SplitEmail, OwnersIndexed, DefaultPicked;
    EmailIsNamed(n.t, p.emails, k);
    var i :| 0 <= i < |n.principals| && n.principals[i] == p;
    assert NamedByPrincipal(n.t, n.principals, SplitEmail(n.t, p.emails[k]).value.1);
  }

  /** The aliases that survive validation stand for the other addresses at accepted domains, and all of those do. */
  lemma AliasesMean(n: Input, ix: Index, built: Tables, kept: Tables, ops: seq<Op>, j: int, c: Cid, r: Record,
                    p: Principal, name: string, domain: Cid, aliases: seq<Alias>, surviving: seq<Alias>)
    requires Behind(n, ix, built, kept, ops) && Holds(ops, j, c, r) && r.AccountRecord?
    requires p in n.principals && IsMailKind(p.kind) && domain in ix.names
    requires AliasesOf(n.t, ix, p.emails, name, domain, aliases)
    requires surviving == SurvivingAliases(BadDomains(n.t, built.domains), aliases)
    ensures var d := ix.names[domain];
            && (forall x :: x in surviving ==>
                  exists alias, e :: IsOtherAddress(n, p, name, d, alias, e) && Stands(ops, j, x, alias, e))
            && (forall alias, e :: IsOtherAddress(n, p, name, d, alias, e) ==>
                  exists x :: x in surviving && Stands(ops, j, x, alias, e))
  {
    hide Staged, Holds, CollectionsOf, Indexed, AccountsValidated, Conserves, Describes, Validated, IsAlias, SplitEmail;
    hide NamedBefore, SurvivingAliases, BadDomains;
    var d, bad := ix.names[domain], BadDomains(n.t, built.domains);
    forall x | x in surviving
      ensures exists alias, e :: IsOtherAddress(n, p, name, d, alias, e) && Stands(ops, j, x, alias, e)
    {
      AliasMeans(n, ix, p, name, domain, x);
      NotBad(n, ix, built, x.domain);
      KeptIsBefore(n, ix, built, kept, ops, j, c, r, x.domain);
      assert Stands(ops, j, x, x.name, ix.names[x.domain]);
      assert IsOtherAddress(n, p, name, d, x.name, ix.names[x.domain]);
    }
    forall alias, e | IsOtherAddress(n, p, name, d, alias, e)
      ensures exists x :: x in surviving && Stands(ops, j, x, alias, e)
    {
      var k :| 0 <= k < |p.emails| && SplitEmail(n.t, p.emails[k]) == Some((alias, e));
      AddressIndexed(n, ix, p, k);
      var x := Alias(alias, ix.domains[e]);
      AliasMeans(n, ix, p, name, domain, x);
      NotBad(n, ix, built, x.domain);
      KeptIsBefore(n, ix, built, kept, ops, j, c, r, x.domain);
      assert x in surviving && Stands(ops, j, x, alias, e);
    }
  }

  lemma NotBad(n: Input, ix: Index, built: Tables, cid: Cid)
    requires Describes(n, ix, built) && cid in ix.names
    ensures cid !in BadDomains(n.t, built.domains) <==> n.t.isDomainName(ix.names[cid])
  {
    hide Describes;
    NamesBuilt(n, ix, built, cid);
  }

  /** The account of an individual or a group in the built tables. */
  lemma AccountBuilt(n: Input, ix: Index, built: Tables, i: nat) returns (c: Cid, a: Account)
    requires Describes(n, ix, built) && i < |n.principals| && n.principals[i].kind in {Individual, Group}
    ensures n.principals[i].id.Some? && c == Restored(n.principals[i].id.value) && c in built.accounts && built.accounts[c] == a
    ensures AccountOf(n.t, ix, n.principals[i], a)
  {
    hide AccountOf, TenantsBuilt, DomainsBuilt, ListsBuilt, SignaturesBuilt;
    c := Restored(n.principals[i].id.value);
    a := built.accounts[c];
  }

  lemma OnceEach(n: Input, ix: Index, p: Principal, a: Account)
    requires AccountOf(n.t, ix, p, a)
    ensures Distinct(a.aliases)
  {
    hide Resolves, IsAlias;
  }

  predicate Distinct(aliases: seq<Alias>) {
    forall i, k :: 0 <= i < k < |aliases| ==> aliases[i] != aliases[k]
  }

  lemma {:induction false} StillDistinct(bad: set<Cid>, aliases: seq<Alias>)
    requires Distinct(aliases)
    ensures Distinct(SurvivingAliases(bad, aliases))
  {
    if aliases != [] {
      var init, last := aliases[..|aliases| - 1], aliases[|aliases| - 1];
      StillDistinct(bad, init);
      forall a | a in init
        ensures a != last
      {
        var m :| 0 <= m < |init| && init[m] == a;
        assert aliases[m] == a;
      }
      var kept, all := SurvivingAliases(bad, init), SurvivingAliases(bad, aliases);
      assert all == kept + if last.domain !in bad && '@' !in last.name then [last] else [];
      forall i, k | 0 <= i < k < |all|
        ensures all[i] != all[k]
      {
        assert all[i] == kept[i] && kept[i] in kept;
        assert kept[i] in init;
        if k < |kept| {
          assert all[k] == kept[k];
        } else {
          assert all[k] == last;
        }
      }
    }
  }

  /** What an account looks like once it is exported. */
  lemma ExportedAccount(n: Input, ix: Index, built: Tables, kept: Tables, ops: seq<Op>, p: Principal, was: Account,
                        j: int, a: Account)
    requires Behind(n, ix, built, kept, ops) && p in n.principals && p.kind in {Individual, Group} && p.id.Some?
    requires AccountOf(n.t, ix, p, was) && was.domain in ix.names && n.t.isDomainName(ix.names[was.domain])
    requires Holds(ops, j, Restored(p.id.value), AccountRecord(a))
    requires a == was.(name := Renamed(n.t, was.name), aliases := SurvivingAliases(BadDomains(n.t, built.domains), was.aliases))
    requires '@' in was.name ==> IsLocalPart(Renamed(n.t, was.name))
    ensures AccountExported(n, ops, p, was.name, ix.names[was.domain], j, a)
  {
    hide Staged, Holds, CollectionsOf, Indexed, AccountsValidated, Conserves, Describes, Validated, AliasesOf, Resolves;
    hide NamedBefore, SurvivingAliases, BadDomains, IsOtherAddress, Stands, IsTenant;
    var c, r := Restored(p.id.value), AccountRecord(a);
    KeptIsBefore(n, ix, built, kept, ops, j, c, r, was.domain);
    TenantIsBefore(n, ix, built, kept, ops, j, c, r, p.tenant);
    AliasesMean(n, ix, built, kept, ops, j, c, r, p, was.name, was.domain, was.aliases, a.aliases);
    OnceEach(n, ix, p, was);
    StillDistinct(BadDomains(n.t, built.domains), was.aliases);
  }

  /**
   Every individual and every group has one address.  If its domain is accepted and its name can be repaired, it is
   exported under its old id at that address, with its other addresses at accepted domains as aliases and within its
   tenant; otherwise it is not exported.
   */
  lemma EveryAccount(n: Input, ix: Index, built: Tables, kept: Tables, ops: seq<Op>, i: nat)
    requires Converted(n, ix, built, kept, ops)
    requires i < |n.principals| && n.principals[i].kind in {Individual, Group}
    ensures var p := n.principals[i];
            && p.id.Some?
            && exists name, d ::
                 && Home(n, p, name, d)
                 && if n.t.isDomainName(d) && exists repaired :: Repaired(n, name, repaired) then
                      exists j, a :: AccountExported(n, ops, p, name, d, j, a)
                    else
                      forall j, a :: !Holds(ops, j, Restored(p.id.value), AccountRecord(a))
  {
    hide Converted;
    hide Staged, Holds, CollectionsOf, Indexed, Conserves, Describes, Resolves, AliasesOf, Home, AccountExported;
    hide BadDomains, SurvivingAliases, Renamed, IsLocalPart, Repaired;
    ConversionIsBehind(n, ix, built, kept, ops);
    var p := n.principals[i];
    var c, was := AccountBuilt(n, ix, built, i);
    TenantsOf(n, ix, built);
    ResolvedIsHome(n, ix, 0, built.tenants, p, was.name, was.domain);
    var name, d := was.name, ix.names[was.domain];
    NotBad(n, ix, built, was.domain);
    RepairedExactly(n, name);
    if c in kept.accounts {
      var a := kept.accounts[c];
      var j := CreatedAt(kept, ops, c, AccountRecord(a));
      ExportedAccount(n, ix, built, kept, ops, p, was, j, a);
    } else {
      forall j, a
        ensures !Holds(ops, j, c, AccountRecord(a))
      {
        if Holds(ops, j, c, AccountRecord(a)) {
          ExportedIsIn(kept, ops, j, c, AccountRecord(a));
        }
      }
    }
  }

  lemma TenantsOf(n: Input, ix: Index, built: Tables)
    requires Describes(n, ix, built)
    ensures TenantsBuilt(n, ix, 0, built.tenants)
  {
    hide TenantsBuilt, DomainsBuilt, AccountsBuilt, ListsBuilt, SignaturesBuilt;
  }

  lemma RepairedExactly(n: Input, name: string)
    ensures (exists repaired :: Repaired(n, name, repaired)) <==> ('@' in name ==> IsLocalPart(Renamed(n.t, name)))
  {
    assert Repaired(n, name, Renamed(n.t, name)) <==> ('@' in name ==> IsLocalPart(Renamed(n.t, name)));
  }

  /** Every exported account is that of one individual or group. */
  lemma OnlyPrincipals(n: Input, ix: Index, built: Tables, kept: Tables, ops: seq<Op>, j: int, c: Cid, a: Account)
    requires Converted(n, ix, built, kept, ops) && Holds(ops, j, c, AccountRecord(a))
    ensures exists i :: 0 <= i < |n.principals| && n.principals[i].kind in {Individual, Group}
                        && n.principals[i].id.Some? && c == Restored(n.principals[i].id.value)
    ensures forall i, k ::
              0 <= i < k < |n.principals| && n.principals[i].kind in {Individual, Group} && n.principals[k].kind in {Individual, Group}
              ==> n.principals[i].id != n.principals[k].id
  {
    hide Converted;
    hide Staged, Holds, CollectionsOf, Indexed, Conserves, TenantsBuilt, DomainsBuilt, ListsBuilt, SignaturesBuilt, AccountOf;
    hide AccountSurvives;
    ConversionIsBehind(n, ix, built, kept, ops);
    ExportedIsIn(kept, ops, j, c, AccountRecord(a));
  }

  /** The list of a principal in the built tables. */
  lemma ListBuilt(n: Input, ix: Index, built: Tables, i: nat) returns (c: Cid, l: MailingList)
    requires Describes(n, ix, built) && i < |n.principals| && n.principals[i].kind == MailList
    requires !Unresolvable(n.t, ix, n.principals[i])
    ensures c in built.lists && built.lists[c] == l && ListOf(n.t, ix, n.principals[i], l)
  {
    hide ListOf, Unresolvable, TenantsBuilt, DomainsBuilt, AccountsBuilt, ListsBuilt, SignaturesBuilt;
    c := ListAt(n, ix, |built.tenants| + |built.domains|, built.lists, i);
    l := built.lists[c];
  }

  lemma ListAt(n: Input, ix: Index, low: nat, lists: map<Cid, MailingList>, i: nat) returns (c: Cid)
    requires ListsBuilt(n, ix, low, lists) && i < |n.principals| && n.principals[i].kind == MailList
    requires !Unresolvable(n.t, ix, n.principals[i])
    ensures c in lists && ListOf(n.t, ix, n.principals[i], lists[c])
  {
    hide ListOf, Unresolvable, Numbered, InListOrder;
    var owners, records :| ListsFrom(n, ix, owners, records) && lists == Numbered(low, records);
    NumberedKeys(low, records);
    assert i in owners;
    var k :| 0 <= k < |owners| && owners[k] == i;
    c := Created(low + k);
    assert InSpan(c, low, low + |records|);
  }

  ghost predicate ListExported(n: Input, ops: seq<Op>, p: Principal, name: string, d: string, j: int, c: Cid, l: MailingList) {
    && Holds(ops, j, c, ListRecord(l)) && l.name == name && NamedBefore(ops, j, l.domain, d)
    && (l.tenant.Some? <==> IsTenant(n, p.tenant))
    && (l.tenant.Some? ==> exists k :: k < j && Holds(ops, k, l.tenant.value, TenantRecord(p.tenant)))
    && (forall alias, e :: IsOtherAddress(n, p, name, d, alias, e) ==> exists x :: x in l.aliases && Stands(ops, j, x, alias, e))
  }

  /**
   A mailing list whose name is not malformed, where any domain is named at all, has one address. It is exported there
   if the domain is accepted, with its other addresses at accepted domains among its aliases.
   */
  lemma EveryList(n: Input, ix: Index, built: Tables, kept: Tables, ops: seq<Op>, i: nat)
    requires Converted(n, ix, built, kept, ops)
    requires i < |n.principals| && n.principals[i].kind == MailList
    requires if '@' in n.principals[i].name then SplitEmail(n.t, n.principals[i].name).Some?
             else exists d :: IsNamed(n.t, n.principals, n.signatures, d)
    ensures exists name, d ::
              && Home(n, n.principals[i], name, d)
              && (n.t.isDomainName(d) ==> exists j, c, l :: ListExported(n, ops, n.principals[i], name, d, j, c, l))
  {
    hide Converted, Staged, Holds, CollectionsOf, Conserves, Describes, Resolves, AliasesOf, Home, ListExported, Indexed;
    hide Validated, IsIn, SplitEmail, IsNamed;
    ConversionIsBehind(n, ix, built, kept, ops);
    var p := n.principals[i];
    SomeDomain(n, ix);
    var c, l := ListBuilt(n, ix, built, i);
    TenantsOf(n, ix, built);
    ResolvedIsHome(n, ix, 0, built.tenants, p, l.name, l.domain);
    KeptAsBuilt(n, ix, built, kept, c);
    if n.t.isDomainName(ix.names[l.domain]) {
      var j := CreatedAt(kept, ops, c, ListRecord(l));
      ExportedList(n, ix, built, kept, ops, p, j, c, l);
    }
  }

  lemma SomeDomain(n: Input, ix: Index)
    requires Indexed(n, ix)
    ensures (exists d :: IsNamed(n.t, n.principals, n.signatures, d)) ==> ix.domains != map[]
  {
    hide IsNamed, DefaultPicked, OwnersIndexed;
  }

  lemma ExportedList(n: Input, ix: Index, built: Tables, kept: Tables, ops: seq<Op>, p: Principal, j: int, c: Cid, l: MailingList)
    requires Behind(n, ix, built, kept, ops) && p in n.principals && p.kind == MailList
    requires ListOf(n.t, ix, p, l) && l.domain in ix.names && n.t.isDomainName(ix.names[l.domain])
    requires Holds(ops, j, c, ListRecord(l))
    ensures ListExported(n, ops, p, l.name, ix.names[l.domain], j, c, l)
  {
    hide Staged, Holds, CollectionsOf, Indexed, Conserves, Describes, Validated, IsAlias, Resolves, SplitEmail;
    hide NamedBefore, IsTenant;
    var r, d := ListRecord(l), ix.names[l.domain];
    KeptIsBefore(n, ix, built, kept, ops, j, c, r, l.domain);
    TenantIsBefore(n, ix, built, kept, ops, j, c, r, p.tenant);
    forall alias, e | IsOtherAddress(n, p, l.name, d, alias, e)
      ensures exists x :: x in l.aliases && Stands(ops, j, x, alias, e)
    {
      var k :| 0 <= k < |p.emails| && SplitEmail(n.t, p.emails[k]) == Some((alias, e));
      AddressIndexed(n, ix, p, k);
      var x := Alias(alias, ix.domains[e]);
      AliasMeans(n, ix, p, l.name, l.domain, x);
      KeptIsBefore(n, ix, built, kept, ops, j, c, r, x.domain);
      assert x in l.aliases && Stands(ops, j, x, alias, e);
    }
  }

  /** The record of a signature in the built tables. */
  lemma SignatureBuilt(n: Input, ix: Index, built: Tables, i: nat) returns (c: Cid, k: Dkim)
    requires Describes(n, ix, built) && i < |n.signatures|
    requires IsUsable(n.t, n.w, n.signatures[i]) && DomainOf(n.t, n.signatures[i]) in ix.domains
    ensures c in built.signatures && built.signatures[c] == k && SignatureOf(n, ix, n.signatures[i], k)
  {
    hide SignatureOf, IsUsable, DomainOf, TenantsBuilt, DomainsBuilt, AccountsBuilt, ListsBuilt, SignaturesBuilt;
    c := SignatureAt(n, ix, |built.tenants| + |built.domains| + |built.lists|, built.signatures, i);
    k := built.signatures[c];
  }

  lemma SignatureAt(n: Input, ix: Index, low: nat, signatures: map<Cid, Dkim>, i: nat) returns (c: Cid)
    requires SignaturesBuilt(n, ix, low, signatures) && i < |n.signatures|
    requires IsUsable(n.t, n.w, n.signatures[i]) && DomainOf(n.t, n.signatures[i]) in ix.domains
    ensures c in signatures && SignatureOf(n, ix, n.signatures[i], signatures[c])
  {
    hide SignatureOf, IsUsable, DomainOf, Numbered;
    var owners, records :| SignaturesFrom(n, ix, owners, records) && signatures == Numbered(low, records);
    NumberedKeys(low, records);
    assert i in owners;
    var j :| 0 <= j < |owners| && owners[j] == i;
    c := Created(low + j);
    assert InSpan(c, low, low + |records|);
  }

  /** Validation keeps the lists and signatures of accepted domains as they are. */
  lemma KeptAsBuilt(n: Input, ix: Index, built: Tables, kept: Tables, c: Cid)
    requires Describes(n, ix, built) && Validated(n.t, built, kept)
    ensures c in built.lists && built.lists[c].domain in ix.names && n.t.isDomainName(ix.names[built.lists[c].domain]) ==>
              IsIn(kept, c, ListRecord(built.lists[c]))
    ensures c in built.signatures && built.signatures[c].domain in ix.names
            && n.t.isDomainName(ix.names[built.signatures[c].domain]) ==>
              IsIn(kept, c, DkimRecord(built.signatures[c]))
  {
    hide Describes, BadDomains, AccountsValidated;
    if c in built.lists && built.lists[c].domain in ix.names {
      NotBad(n, ix, built, built.lists[c].domain);
    }
    if c in built.signatures && built.signatures[c].domain in ix.names {
      NotBad(n, ix, built, built.signatures[c].domain);
    }
  }

  lemma SignatureIndexed(n: Input, ix: Index, i: nat)
    requires Indexed(n, ix) && i < |n.signatures| && DomainOf(n.t, n.signatures[i]) != ""
    ensures DomainOf(n.t, n.signatures[i]) in ix.domains
  {
    hide DomainOf, DefaultPicked, OwnersIndexed;
    assert DomainOf(n.t, n.signatures[i]) in SignatureDomain(n.t, n.signatures[i]);
    assert NamedBySignature(n.t, n.signatures, DomainOf(n.t, n.signatures[i]));
  }

  ghost predicate SignatureExported(n: Input, ops: seq<Op>, s: Signature, j: int, c: Cid, k: Dkim) {
    && Holds(ops, j, c, DkimRecord(k)) && NamedBefore(ops, j, k.domain, DomainOf(n.t, s))
    && AlgorithmOf(n.t, s) == Some(k.algorithm) && SelectorOf(n.t, s) == k.selector
    && PrivateKeyOf(n.t, n.w, s) == Some(k.privateKey) && CanonicalizationOf(n.t, s) == k.canonicalization
    && forall path :: KeyInFile(n.t, n.w, s, path) ==> k.privateKey == n.t.strip(n.w.files[n.w.strip(path)])
  }

  /** Every usable signature of an accepted domain is exported with its settings, behind that domain. */
  lemma EverySignature(n: Input, ix: Index, built: Tables, kept: Tables, ops: seq<Op>, i: nat)
    requires Converted(n, ix, built, kept, ops) && i < |n.signatures|
    requires IsUsable(n.t, n.w, n.signatures[i]) && DomainOf(n.t, n.signatures[i]) != ""
    requires n.t.isDomainName(DomainOf(n.t, n.signatures[i]))
    ensures exists j, c, k :: SignatureExported(n, ops, n.signatures[i], j, c, k)
  {
    hide Converted, Staged, Holds, CollectionsOf, Conserves, Describes, IsUsable, DomainOf, KeyInFile, PrivateKeyOf, Indexed;
    hide Validated, IsIn, AlgorithmOf, SelectorOf, CanonicalizationOf, SignatureExported;
    ConversionIsBehind(n, ix, built, kept, ops);
    var s := n.signatures[i];
    SignatureIndexed(n, ix, i);
    var c, k := SignatureBuilt(n, ix, built, i);
    KeptAsBuilt(n, ix, built, kept, c);
    var j := CreatedAt(kept, ops, c, DkimRecord(k));
    ExportedSignature(n, ix, built, kept, ops, s, j, c, k);
  }

  lemma ExportedSignature(n: Input, ix: Index, built: Tables, kept: Tables, ops: seq<Op>, s: Signature, j: int, c: Cid, k: Dkim)
    requires Behind(n, ix, built, kept, ops) && SignatureOf(n, ix, s, k) && n.t.isDomainName(DomainOf(n.t, s))
    requires Holds(ops, j, c, DkimRecord(k))
    ensures SignatureExported(n, ops, s, j, c, k)
  {
    hide Staged, Holds, CollectionsOf, Conserves, Describes, DomainOf, KeyInFile, PrivateKeyOf, Indexed, Validated;
    hide NamedBefore, AlgorithmOf, SelectorOf, CanonicalizationOf, DomainTenant;
    KeptIsBefore(n, ix, built, kept, ops, j, c, DkimRecord(k), k.domain);
    forall path | KeyInFile(n.t, n.w, s, path)
      ensures n.w.strip(path) in n.w.files && k.privateKey == n.t.strip(n.w.files[n.w.strip(path)])
    {
      KeyIsContent(n.t, n.w, s, path);
      InFiles(n.t, n.w, s, path);
    }
  }
}
