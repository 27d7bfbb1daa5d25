/** The record converter of the v0.16 migration (class `Converter` of resources/scripts/migrate_v016.py). */
module Converter {
  import opened Common
  import opened Sorting
  import opened Records
  import opened Signatures
  import opened DomainIndex
  import opened BuiltTables
  import Macros
  import SubTrees

  class Converter {
    const t: Texts
    const w: Macros.World
    const principals: seq<Principal>
    /** The signature subtrees in the order of their ids. */
    const signatures: seq<Signature>

    var tenantNameToCid: map<string, Cid>
    var domainNameToCid: map<string, Cid>
    var domainCidToName: map<Cid, string>
    var domainCidToTenantCid: map<Cid, Cid>
    var defaultDomainCid: Option<Cid>
    var createCounter: nat

    ghost function Ix(): Index
      reads this
    {
      Index(tenantNameToCid, domainNameToCid, domainCidToName, domainCidToTenantCid, defaultDomainCid)
    }

    /** The certificates that can be exported, and the settings objects built besides SystemSettings. */
    const certificateCount: nat
    const otherSettings: set<string>

    ghost function In(): Input { Input(t, w, principals, signatures, certificateCount, otherSettings) }

    constructor (t: Texts, w: Macros.World, principals: seq<Principal>, signatures: seq<Signature>, certificateCount: nat,
                 otherSettings: set<string>)
      ensures In() == Input(t, w, principals, signatures, certificateCount, otherSettings)
      ensures Ix() == Index(map[], map[], map[], map[], None) && createCounter == 0
    {
      this.t, this.w, this.principals, this.signatures := t, w, principals, signatures;
      this.certificateCount, this.otherSettings := certificateCount, otherSettings;
      tenantNameToCid, domainNameToCid, domainCidToName, domainCidToTenantCid := map[], map[], map[], map[];
      defaultDomainCid, createCounter := None, 0;
    }

    method NextCreateCid() returns (cid: Cid)
      modifies `createCounter
      ensures cid == Created(old(createCounter)) && createCounter == old(createCounter) + 1
    {
      cid := Created(createCounter);
      createCounter := createCounter + 1;
    }

    // ----- Tenants ----------------------------------------------------------------------------

    /** One record per tenant principal with a name, numbered in the order of names; the index leads to the last. */
    method BuildTenants() returns (out: map<Cid, string>)
      requires tenantNameToCid == map[]
      modifies `createCounter, `tenantNameToCid
      ensures createCounter == old(createCounter) + |out|
      ensures exists names :: TenantsNumbered(principals, old(createCounter), names, out)
      ensures TenantsIndexed(tenantNameToCid, out)
    {
      hide Ordered, Numbered, TenantNames, NonEmpty;
      var tenants := TenantPrincipalNames();
      var sorted := Sort(tenants, false);
      out := map[];
      ghost var low, names := createCounter, [];
      NothingNumbered<string>(low);
      assert sorted[..0] == [];
      NoNames();
      for k := 0 to |sorted|
        invariant createCounter == low + |names|
        invariant names == NonEmpty(sorted[..k])
        invariant out == Numbered(low, names) && TenantsIndexed(tenantNameToCid, out)
        invariant forall c :: c in out <==> InSpan(c, low, createCounter)
        invariant forall name :: name in tenantNameToCid ==> InSpan(tenantNameToCid[name], low, createCounter)
      {
        NonEmptyMore(sorted, k);
        if sorted[k] == "" { continue; }
        var cid := NextCreateCid();
        NumberedMore(low, names, sorted[k]);
        tenantNameToCid := tenantNameToCid[sorted[k] := cid];
        out := out[cid := sorted[k]];
        names := names + [sorted[k]];
      }
      assert sorted[..|sorted|] == sorted;
      NonEmptyKeeps(tenants, sorted);
      NumberedKeys(low, names);
      assert TenantsNumbered(principals, low, names, out);
    }

    method TenantPrincipalNames() returns (names: seq<string>)
      ensures names == TenantNames(principals)
    {
      names := [];
      for i := 0 to |principals|
        invariant names == TenantNames(principals[..i])
      {
        assert principals[..i + 1][..i] == principals[..i];
        if principals[i].kind.TenantKind? { names := names + [principals[i].name]; }
      }
      assert principals[..|principals|] == principals;
    }

    // ----- Domains ----------------------------------------------------------------------------

    method CollectDomainNames() returns (names: set<string>)
      ensures forall d :: d in names <==> IsNamed(t, principals, signatures, d)
    {
      hide NamedDomains, SignatureDomain;
      names := {};
      for i := 0 to |principals|
        invariant forall d :: d in names <==> exists j :: 0 <= j < i && d in NamedDomains(t, principals[j])
      {
        names := names + NamedDomains(t, principals[i]);
      }
      for i := 0 to |signatures|
        invariant forall d :: d in names <==>
                    NamedByPrincipal(t, principals, d) || exists j :: 0 <= j < i && d in SignatureDomain(t, signatures[j])
      {
        names := names + SignatureDomain(t, signatures[i]);
      }
    }

    method DeclaredDomains() returns (declared: map<string, Principal>)
      ensures forall d :: d in declared <==> d != "" && LastDeclared(t, principals, d).Some?
      ensures forall d :: d in declared ==> LastDeclared(t, principals, d) == Some(declared[d])
    {
      declared := map[];
      for i := 0 to |principals|
        invariant forall d :: d in declared <==> d != "" && LastDeclared(t, principals[..i], d).Some?
        invariant forall d :: d in declared ==> LastDeclared(t, principals[..i], d) == Some(declared[d])
      {
        assert principals[..i + 1][..i] == principals[..i];
        if principals[i].kind.DomainKind? && t.stripLower(principals[i].name) != "" {
          declared := declared[t.stripLower(principals[i].name) := principals[i]];
        }
      }
      assert principals[..|principals|] == principals;
    }

    /** Draws a client id for one more domain and enters it into the index. */
    method IndexDomain(dname: string, declared: map<string, Principal>) returns (cid: Cid, record: Domain)
      requires dname != "" && dname !in domainNameToCid && Created(createCounter) !in domainCidToName
      requires Inverse(domainNameToCid, domainCidToName)
      requires OwnersIndexed(t, principals, tenantNameToCid, domainCidToName, domainCidToTenantCid)
      requires forall d :: d in declared <==> d != "" && LastDeclared(t, principals, d).Some?
      requires forall d :: d in declared ==> LastDeclared(t, principals, d) == Some(declared[d])
      modifies `createCounter, `domainNameToCid, `domainCidToName, `domainCidToTenantCid
      ensures cid == Created(old(createCounter)) && createCounter == old(createCounter) + 1
      ensures domainNameToCid == old(domainNameToCid)[dname := cid]
      ensures domainCidToName == old(domainCidToName)[cid := dname]
      ensures Inverse(domainNameToCid, domainCidToName)
      ensures OwnersIndexed(t, principals, tenantNameToCid, domainCidToName, domainCidToTenantCid)
      ensures record == Domain(dname, DomainTenant(t, principals, tenantNameToCid, dname))
    {
      hide LastDeclared, Inverse, OwnersIndexed;
      cid := NextCreateCid();
      IndexOne(t, principals, tenantNameToCid, domainNameToCid, domainCidToName, domainCidToTenantCid, dname, cid);
      domainNameToCid := domainNameToCid[dname := cid];
      domainCidToName := domainCidToName[cid := dname];
      var tenant := if dname in declared then MemberTenant(tenantNameToCid, declared[dname].tenant) else None;
      if tenant.Some? {
        domainCidToTenantCid := domainCidToTenantCid[cid := tenant.value];
      }
      record := Domain(dname, tenant);
    }

    /** The index holds exactly the named domains, numbered in the order of names, with their owners. */
    method BuildDomains() returns (out: map<Cid, Domain>)
      requires domainNameToCid == map[] && domainCidToName == map[] && domainCidToTenantCid == map[]
      modifies `createCounter, `domainNameToCid, `domainCidToName, `domainCidToTenantCid
      ensures createCounter == old(createCounter) + |out|
      ensures DomainsIndexed(t, principals, signatures, Ix())
      ensures DomainsBuilt(In(), Ix(), old(createCounter), out)
    {
      hide LastDeclared, IsNamed, Inverse, OwnersIndexed, Numbered, DomainTenant;
      var declared := DeclaredDomains();
      var collected := CollectDomainNames();
      NoEmptyName();
      var names := SortedSet(collected);
      out := map[];
      ghost var low, records := createCounter, [];
      NothingIndexed(t, principals, tenantNameToCid);
      NothingNumbered<Domain>(low);
      for k := 0 to |names|
        invariant createCounter == low + k && |records| == k && out == Numbered(low, records)
        invariant forall d :: d in domainNameToCid <==> d in names[..k]
        invariant Inverse(domainNameToCid, domainCidToName)
        invariant OwnersIndexed(t, principals, tenantNameToCid, domainCidToName, domainCidToTenantCid)
        invariant out.Keys == domainCidToName.Keys
        invariant forall c :: c in out <==> InSpan(c, low, createCounter)
        invariant forall j :: 0 <= j < k ==> records[j].name == names[j]
        invariant forall c :: c in out ==>
                    out[c] == Domain(domainCidToName[c], DomainTenant(t, principals, tenantNameToCid, domainCidToName[c]))
      {
        var dname := names[k];
        assert dname !in names[..k] && names[..k + 1] == names[..k] + [dname];
        var cid, record := IndexDomain(dname, declared);
        NumberedMore(low, records, record);
        out := out[cid := record];
        records := records + [record];
      }
      assert names[..|names|] == names;
      NumberedKeys(low, records);
      InOrderOfNames(names, records);
      assert DomainsNumbered(In(), Ix(), low, records, out);
    }

    lemma NoEmptyName()
      ensures !IsNamed(t, principals, signatures, "")
    {
      forall i | 0 <= i < |principals|
        ensures "" !in NamedDomains(t, principals[i])
      {
        EmailDomainsNonempty(t, principals[i].emails);
      }
    }

    // ----- Default domain ---------------------------------------------------------------------

    /** No default exactly when the index is empty; otherwise the most used domain, ties by name. */
    method PickDefaultDomain()
      requires DomainsIndexed(t, principals, signatures, Ix())
      modifies `defaultDomainCid
      ensures DefaultPicked(t, principals, Ix()) && DomainsIndexed(t, principals, signatures, Ix())
    {
      if domainNameToCid == map[] {
        defaultDomainCid := None;
        return;
      }
      if |domainNameToCid| == 1 {
        var only :| only in domainNameToCid;
        OnlyKey(domainNameToCid, only);
        OutvotesItself(t, principals, only);
        defaultDomainCid := Some(domainNameToCid[only]);
        return;
      }
      var counts := CountInferred();
      CountedAreNamed();
      if counts == map[] {
        var names := SortedSet(domainNameToCid.Keys);
        assert domainNameToCid.Keys != {};
        LeastOutvotes(t, principals, names, domainNameToCid.Keys);
        defaultDomainCid := Some(domainNameToCid[names[0]]);
      } else {
        var best := MostCounted(counts);
        assert Votes(t, principals, best) > 0;
        defaultDomainCid := Some(domainNameToCid[best]);
      }
    }

    method CountInferred() returns (counts: map<string, nat>)
      ensures forall d :: Votes(t, principals, d) == if d in counts then counts[d] else 0
      ensures forall d :: d in counts ==> counts[d] > 0
    {
      counts := map[];
      for i := 0 to |principals|
        invariant forall d :: Votes(t, principals[..i], d) == if d in counts then counts[d] else 0
        invariant forall d :: d in counts ==> counts[d] > 0
      {
        assert principals[..i + 1][..i] == principals[..i];
        var p := principals[i];
        if !IsMailKind(p.kind) { continue; }
        var inferred := InferDomain(t, p);
        if inferred.Some? {
          var before := if inferred.value in counts then counts[inferred.value] else 0;
          counts := counts[inferred.value := before + 1];
        }
      }
      assert principals[..|principals|] == principals;
    }

    /** The first of the entries sorted by falling count, then name. */
    method MostCounted(counts: map<string, nat>) returns (best: string)
      requires counts != map[]
      ensures best in counts
      ensures forall d :: d in counts ==> counts[best] > counts[d] || (counts[best] == counts[d] && !LexLess(d, best))
    {
      assert counts.Keys != {};
      best :| best in counts;
      LexTotal(best, best);
      var rest := counts.Keys - {best};
      while rest != {}
        invariant best in counts && rest <= counts.Keys
        invariant forall d :: d in counts.Keys - rest ==>
                    counts[best] > counts[d] || (counts[best] == counts[d] && !LexLess(d, best))
      {
        var d :| d in rest;
        rest := rest - {d};
        if counts[d] > counts[best] || (counts[d] == counts[best] && LexLess(d, best)) {
          forall e
            ensures !LexLess(e, best) ==> LexLess(d, best) ==> !LexLess(e, d)
          {
            BeforeIsOrder(d, best, e, false);
          }
          LexTotal(d, d);
          best := d;
        }
      }
    }

    lemma CountedAreNamed()
      requires DomainsIndexed(t, principals, signatures, Ix())
      ensures forall d :: Votes(t, principals, d) > 0 ==> d in domainNameToCid
    {
      forall d | Votes(t, principals, d) > 0
        ensures d in domainNameToCid
      {
        var i := VoterOf(t, principals, d);
        InferredIsNamed(t, principals[i]);
        assert NamedByPrincipal(t, principals, d);
      }
    }

    // ----- Resolution -------------------------------------------------------------------------

    method TenantDefaultDomainCid(p: Principal) returns (found: Option<Cid>)
      ensures IsTenantDefault(Ix(), p.tenant, found)
    {
      found := None;
      var owner := MemberTenant(tenantNameToCid, p.tenant);
      if owner.None? { return; }
      var rest := domainCidToTenantCid.Keys;
      while rest != {}
        invariant rest <= domainCidToTenantCid.Keys
        invariant found.Some? ==> Owns(Ix(), p.tenant, found.value)
        invariant forall c :: Owns(Ix(), p.tenant, c) && c !in rest ==>
                    found.Some? && !LexLess(NameOf(domainCidToName, c), NameOf(domainCidToName, found.value))
      {
        var cid :| cid in rest;
        rest := rest - {cid};
        if domainCidToTenantCid[cid] != owner.value { continue; }
        if found.None? || LexLess(NameOf(domainCidToName, cid), NameOf(domainCidToName, found.value)) {
          ghost var best := found;
          found := Some(cid);
          forall c
            ensures best.Some? && !LexLess(NameOf(domainCidToName, c), NameOf(domainCidToName, best.value)) ==>
                      !LexLess(NameOf(domainCidToName, c), NameOf(domainCidToName, cid))
          {
            if best.Some? {
              BeforeIsOrder(NameOf(domainCidToName, cid), NameOf(domainCidToName, best.value), NameOf(domainCidToName, c), false);
            }
          }
          LexTotal(NameOf(domainCidToName, cid), NameOf(domainCidToName, cid));
        }
      }
    }

    method ResolveNameAndDomain(p: Principal) returns (r: Result<(string, Cid), ConvertError>)
      ensures Resolves(t, Ix(), p, r)
    {
      hide IsTenantDefault;
      if '@' in p.name {
        var parts := SplitEmail(t, p.name);
        if parts.None? { return Err(MalformedName); }
        if parts.value.1 !in domainNameToCid { return Err(MissingDomain); }
        return Ok((parts.value.0, domainNameToCid[parts.value.1]));
      }
      var inferred := InferDomain(t, p);
      if inferred.Some? {
        if inferred.value !in domainNameToCid { return Err(MissingDomain); }
        return Ok((p.name, domainNameToCid[inferred.value]));
      }
      var tenantDefault := TenantDefaultDomainCid(p);
      if tenantDefault.Some? { return Ok((p.name, tenantDefault.value)); }
      if defaultDomainCid.None? { return Err(NoDefaultDomain); }
      return Ok((p.name, defaultDomainCid.value));
    }

    // ----- Accounts, lists, signatures --------------------------------------------------------

    method BuildAliases(p: Principal, primaryName: string, primaryDomain: Cid) returns (aliases: seq<Alias>)
      ensures AliasesOf(t, Ix(), p.emails, primaryName, primaryDomain, aliases)
    {
      aliases := [];
      for i := 0 to |p.emails|
        invariant forall a :: a in aliases <==>
                    a.name != "" && a != Alias(primaryName, primaryDomain)
                    && exists j :: 0 <= j < i && AliasAt(t, Ix(), p.emails[j], a)
        invariant forall j, k :: 0 <= j < k < |aliases| ==> aliases[j] != aliases[k]
      {
        var parts := SplitEmail(t, p.emails[i]);
        if parts.None? { continue; }
        if parts.value.0 == "" { continue; }
        if parts.value.1 !in domainNameToCid { continue; }
        var domain := domainNameToCid[parts.value.1];
        var alias := Alias(parts.value.0, domain);
        assert AliasAt(t, Ix(), p.emails[i], alias);
        if alias.name == primaryName && domain == primaryDomain { continue; }
        if alias in aliases { continue; }
        aliases := aliases + [alias];
      }
    }

    method BuildAccount(p: Principal) returns (r: Result<(Cid, Account), ConvertError>)
      ensures r.Ok? ==> p.id.Some? && r.value.0 == Restored(p.id.value) && AccountOf(t, Ix(), p, r.value.1)
      ensures r.Err? ==> Resolves(t, Ix(), p, Err(r.error)) || (r.error == MissingId && p.id.None?)
    {
      hide Resolves, AliasesOf;
      var resolved := ResolveNameAndDomain(p);
      if resolved.Err? { return Err(resolved.error); }
      if p.id.None? { return Err(MissingId); }
      var aliases := BuildAliases(p, resolved.value.0, resolved.value.1);
      assert resolved == Ok((resolved.value.0, resolved.value.1));
      var account := Account(p.kind.Group?, resolved.value.0, resolved.value.1, aliases,
                             MemberTenant(tenantNameToCid, p.tenant));
      return Ok((Restored(p.id.value), account));
    }

    /** Exactly one account for every individual and group, or the reason of the first that fails. */
    method BuildAccounts() returns (r: Result<map<Cid, Account>, ConvertError>)
      ensures r.Ok? ==> AccountsBuilt(t, Ix(), principals, r.value)
      ensures r.Err? ==> exists n :: AccountFails(t, Ix(), principals, n, r.error)
    {
      hide Resolves, AccountOf;
      var out: map<Cid, Account> := map[];
      for i: nat := 0 to |principals|
        invariant AccountsBuilt(t, Ix(), principals[..i], out)
      {
        AccountsGrow(t, Ix(), principals, i, out);
        if !IsAccountKind(principals[i].kind) { continue; }
        var built := BuildAccount(principals[i]);
        if built.Err? {
          assert AccountFails(t, Ix(), principals, i, built.error);
          return Err(built.error);
        }
        if built.value.0 in out {
          assert AccountFails(t, Ix(), principals, i, DuplicateAccount);
          return Err(DuplicateAccount);
        }
        out := out[built.value.0 := built.value.1];
      }
      assert principals[..|principals|] == principals;
      return Ok(out);
    }

    /** The mailing lists by old id; insertion keeps lists with equal ids in their order. */
    method SortedLists() returns (order: seq<nat>)
      ensures InListOrder(principals, order)
      ensures forall i: nat :: i in order <==> i < |principals| && principals[i].kind.MailList?
    {
      order := [];
      for i: nat := 0 to |principals|
        invariant InListOrder(principals, order)
        invariant forall j: nat :: j in order <==> j < i && principals[j].kind.MailList?
      {
        if !principals[i].kind.MailList? { continue; }
        assert forall j :: 0 <= j < |order| ==> order[j] in order;
        order := InsertList(order, i);
      }
    }

    method InsertList(order: seq<nat>, i: nat) returns (inserted: seq<nat>)
      requires InListOrder(principals, order) && i < |principals| && forall j :: 0 <= j < |order| ==> order[j] < i
      ensures InListOrder(principals, inserted) && forall j :: j in inserted <==> j in order || j == i
    {
      var k := |order|;
      while k > 0 && ListBefore(principals, i, order[k - 1])
        invariant 0 <= k <= |order|
        invariant forall j :: k <= j < |order| ==> ListBefore(principals, i, order[j])
      {
        k := k - 1;
      }
      inserted := order[..k] + [i] + order[k..];
      InsertedOnce(order, k, i, inserted);
    }

    /** One record for every list that resolves, in the order of old ids; the others are skipped. */
    method BuildMailingLists() returns (out: map<Cid, MailingList>)
      requires Indexed(In(), Ix())
      modifies `createCounter
      ensures createCounter == old(createCounter) + |out|
      ensures ListsBuilt(In(), Ix(), old(createCounter), out)
    {
      hide Resolves, AliasesOf, DomainsIndexed, DefaultPicked, Unresolvable, Numbered, ListBefore;
      var order := SortedLists();
      out := map[];
      ghost var low: nat, owners: seq<nat>, records := createCounter, [], [];
      NothingNumbered<MailingList>(low);
      for k := 0 to |order|
        invariant createCounter == low + |records| && |records| == |owners| && out == Numbered(low, records)
        invariant InListOrder(principals, owners)
        invariant forall i: nat :: i in owners <==> i in order[..k] && !Unresolvable(t, Ix(), principals[i])
        invariant forall j :: 0 <= j < |owners| ==> ListOf(t, Ix(), principals[owners[j]], records[j])
      {
        assert order[k] in order && order[..k + 1] == order[..k] + [order[k]];
        var p := principals[order[k]];
        var resolved := ResolveNameAndDomain(p);
        ResolutionNeverMisses(t, principals, signatures, Ix(), p, resolved);
        if resolved.Err? { continue; }
        var aliases := BuildAliases(p, resolved.value.0, resolved.value.1);
        assert resolved == Ok((resolved.value.0, resolved.value.1));
        var cid := NextCreateCid();
        var record := MailingList(resolved.value.0, resolved.value.1, aliases, MemberTenant(tenantNameToCid, p.tenant));
        NumberedMore(low, records, record);
        LaterOwner(principals, order, k, owners);
        out := out[cid := record];
        owners, records := owners + [order[k]], records + [record];
      }
      assert order[..|order|] == order;
      NumberedKeys(low, records);
      assert ListsFrom(In(), Ix(), owners, records);
    }

    method BuildSignature(s: Signature) returns (built: Option<Dkim>)
      requires DomainsIndexed(t, principals, signatures, Ix())
      ensures built.Some? <==> IsUsable(t, w, s) && DomainOf(t, s) in domainNameToCid
      ensures built.Some? ==> SignatureOf(In(), Ix(), s, built.value)
      ensures forall path :: built.Some? && KeyInFile(t, w, s, path) ==>
                               built.value.privateKey == t.strip(w.files[w.strip(path)])
    {
      hide IsNamed, DomainTenant, AlgorithmOf, PrivateKeyOf, CanonicalizationOf, KeyInFile;
      forall path | KeyInFile(t, w, s, path)
        ensures w.strip(path) in w.files && PrivateKeyOf(t, w, s) == Some(t.strip(w.files[w.strip(path)]))
      {
        KeyIsContent(t, w, s, path);
        InFiles(t, w, s, path);
      }
      var algorithm := AlgorithmOf(t, s);
      if algorithm.None? { return None; }
      var selector := SelectorOf(t, s);
      if selector == "" { return None; }
      var domain := DomainOf(t, s);
      if domain !in domainNameToCid { return None; }
      var domainCid := domainNameToCid[domain];
      var privateKey := PrivateKeyOf(t, w, s);
      if privateKey.None? { return None; }
      var tenant := if domainCid in domainCidToTenantCid then Some(domainCidToTenantCid[domainCid]) else None;
      return Some(Dkim(algorithm.value, CanonicalizationOf(t, s), domainCid, privateKey.value, selector, tenant));
    }

    /** A record for every usable signature of an indexed domain, in the order of signature ids. */
    method BuildDkimSignatures() returns (out: map<Cid, Dkim>)
      requires DomainsIndexed(t, principals, signatures, Ix())
      modifies `createCounter
      ensures createCounter == old(createCounter) + |out|
      ensures SignaturesBuilt(In(), Ix(), old(createCounter), out)
    {
      hide SignatureOf, DomainsIndexed, IsUsable, DomainOf, Numbered;
      out := map[];
      ghost var low: nat, owners: seq<nat>, records := createCounter, [], [];
      NothingNumbered<Dkim>(low);
      for i: nat := 0 to |signatures|
        invariant createCounter == low + |records| && |records| == |owners| && out == Numbered(low, records)
        invariant forall j, k :: 0 <= j < k < |owners| ==> owners[j] < owners[k]
        invariant forall j: nat :: j in owners <==>
                    j < i && IsUsable(t, w, signatures[j]) && DomainOf(t, signatures[j]) in domainNameToCid
        invariant forall k :: 0 <= k < |owners| ==>
                    owners[k] < i && SignatureOf(In(), Ix(), signatures[owners[k]], records[k])
      {
        var built := BuildSignature(signatures[i]);
        if built.None? { continue; }
        var cid := NextCreateCid();
        NumberedMore(low, records, built.value);
        out := out[cid := built.value];
        owners, records := owners + [i], records + [built.value];
      }
      NumberedKeys(low, records);
      assert SignaturesFrom(In(), Ix(), owners, records);
    }

    /** The certificates that can be exported, already counted. */
    method BuildCertificates() returns (out: set<Cid>)
      modifies `createCounter
      ensures |out| == certificateCount && createCounter == old(createCounter) + certificateCount
      ensures forall c :: c in out <==> InSpan(c, old(createCounter), createCounter)
    {
      out := {};
      for i := 0 to certificateCount
        invariant createCounter == old(createCounter) + i && |out| == i
        invariant forall c :: c in out <==> InSpan(c, old(createCounter), createCounter)
      {
        var cid := NextCreateCid();
        out := out + {cid};
      }
    }

    // ----- Whole conversion -------------------------------------------------------------------

    /** All tables before validation. */
    method Build() returns (r: Result<Tables, ConvertError>)
      requires Ix() == Index(map[], map[], map[], map[], None) && createCounter == 0
      modifies this
      ensures Indexed(In(), Ix())
      ensures r.Ok? ==> Describes(In(), Ix(), r.value)
      ensures r.Err? ==> r.error != MissingDomain && exists n :: AccountFails(t, Ix(), principals, n, r.error)
    {
      hide DomainsIndexed, DefaultPicked, AccountsBuilt, AccountFails, TenantsNumbered, TenantsIndexed, DomainsBuilt;
      hide ListsBuilt, SignaturesBuilt;
      var tenants := BuildTenants();
      ghost var names :| TenantsNumbered(principals, 0, names, tenants);
      var domains := BuildDomains();
      ghost var ix0 := Ix();
      PickDefaultDomain();
      DefaultIsNoMatter(In(), ix0, Ix(), |tenants|, domains);
      var accounts := BuildAccounts();
      if accounts.Err? {
        FailureIsNotMissing(In(), Ix(), accounts.error);
        return Err(accounts.error);
      }
      ghost var ix := Ix();
      var lists := BuildMailingLists();
      assert Ix() == ix;
      var dkim := BuildDkimSignatures();
      assert Ix() == ix;
      var certificates := BuildCertificates();
      assert Ix() == ix;
      return Ok(Tables(tenants, domains, accounts.value, lists, dkim, certificates));
    }

    /** The whole conversion; see `Converted` for what it promises of the operations. */
    method Run() returns (r: Result<seq<Op>, ConvertError>)
      requires Ix() == Index(map[], map[], map[], map[], None) && createCounter == 0 && "SystemSettings" !in otherSettings
      modifies this
      ensures r.Err? ==> Indexed(In(), Ix()) && r.error != MissingDomain
                         && exists n :: AccountFails(t, Ix(), principals, n, r.error)
      ensures r.Ok? ==> exists built, kept :: Converted(In(), Ix(), built, kept, r.value)
    {
      hide Indexed, Describes, Validated, Conserves, Staged, AccountFails, CollectionsOf, Converted;
      var b := Build();
      if b.Err? { return Err(b.error); }
      var v := Validate(t, b.value);
      CollectionsTyped(v);
      var singletons := otherSettings + if defaultDomainCid.Some? then {"SystemSettings"} else {};
      var ops := BuildExportOps(CollectionsOf(v), singletons);
      DefaultOf(In(), Ix());
      assert singletons == Singletons(In(), Ix());
      ExportConverts(In(), Ix(), b.value, v, ops);
      r := Ok(ops);
    }
  }

  /**
   What a conversion promises: the index and the tables are those of the input, the operations hold exactly the
   validated tables in stages, every reference (mailing-list aliases excepted) names a record created by an earlier
   operation, and no client id is created twice.  The alias of a mailing list and the default domain are created in
   time exactly if the domain has an acceptable name.
   */
  ghost predicate Converted(n: Input, ix: Index, built: Tables, kept: Tables, ops: seq<Op>) {
    && Indexed(n, ix) && Describes(n, ix, built) && Validated(n.t, built, kept)
    && Conserves(CollectionsOf(kept), ops) && Staged(ops)
    && (forall i, c, r :: Holds(ops, i, c, r) ==> ReferencesBefore(ops, i, r))
    && (forall i, j, c, r, r' :: Holds(ops, i, c, r) && Holds(ops, j, c, r') ==> i == j && r == r')
    && (forall i, c, l, a :: Holds(ops, i, c, ListRecord(l)) && a in l.aliases ==> DanglesOrNot(n.t, ix, ops, i, a.domain))
    && (ix.fallback.Some? ==> DanglesOrNot(n.t, ix, ops, |ops|, ix.fallback.value))
    && (Update("SystemSettings") in ops <==> ix.domains != map[])
    && UpdatesExactlyAtEnd(n, ix, ops)
  }

  /** Behind the creates come the updates of exactly the singletons that are built, in their order. */
  ghost predicate UpdatesExactlyAtEnd(n: Input, ix: Index, ops: seq<Op>) {
    exists creates ::
      ops == creates + Updates(Singletons(n, ix), |SINGLETON_ORDER|) && forall op :: op in creates ==> op.Create?
  }

  ghost function Singletons(n: Input, ix: Index): set<string> {
    n.singletons + if ix.domains != map[] then {"SystemSettings"} else {}
  }

  /** A reference to an indexed domain is good at operation `i` exactly if the domain has an acceptable name. */
  ghost predicate DanglesOrNot(t: Texts, ix: Index, ops: seq<Op>, i: int, domain: Cid) {
    domain in ix.names && (DomainBefore(ops, i, domain) <==> t.isDomainName(ix.names[domain]))
  }

  lemma ExportConverts(n: Input, ix: Index, built: Tables, kept: Tables, ops: seq<Op>)
    requires Indexed(n, ix) && Describes(n, ix, built) && Validated(n.t, built, kept)
    requires Conserves(CollectionsOf(kept), ops) && Staged(ops)
    requires "SystemSettings" !in n.singletons && UpdatesExactlyAtEnd(n, ix, ops)
    ensures Converted(n, ix, built, kept, ops)
  {
    hide Indexed, Describes, Validated, Conserves, Staged, AllLinked, Apart, CollectionsOf, Holds, ReferencesBefore, DanglesOrNot;
    TablesLinked(n, ix, built);
    TablesApart(n, ix, built);
    ValidationKeepsApart(n.t, built, kept);
    forall i, c, r | Holds(ops, i, c, r)
      ensures ReferencesBefore(ops, i, r)
    {
      ExportKeepsOrder(n.t, built, kept, ops, i, c, r);
    }
    forall i, j, c, r, r' | Holds(ops, i, c, r) && Holds(ops, j, c, r')
      ensures i == j && r == r'
    {
      ExportIsUnique(kept, ops, i, j, c, r, r');
    }
    forall i, c, l, a | Holds(ops, i, c, ListRecord(l)) && a in l.aliases
      ensures DanglesOrNot(n.t, ix, ops, i, a.domain)
    {
      ListAliasExactly(n.t, built, kept, ops, i, c, l, a);
      NamedAlike(n, ix, built, ops, i, a.domain);
    }
    SystemSettingsExactly(n, ix, ops);
    DefaultOf(n, ix);
    if ix.fallback.Some? {
      DomainExactly(n.t, built, kept, ops, ix.fallback.value);
      NamedAlike(n, ix, built, ops, |ops|, ix.fallback.value);
    }
  }

  lemma SystemSettingsExactly(n: Input, ix: Index, ops: seq<Op>)
    requires "SystemSettings" !in n.singletons && UpdatesExactlyAtEnd(n, ix, ops)
    ensures Update("SystemSettings") in ops <==> ix.domains != map[]
  {
    var creates :|
      ops == creates + Updates(Singletons(n, ix), |SINGLETON_ORDER|) && forall op :: op in creates ==> op.Create?;
    UpdatesExactly(Singletons(n, ix), |SINGLETON_ORDER|);
    assert SINGLETON_ORDER[..|SINGLETON_ORDER|] == SINGLETON_ORDER && SINGLETON_ORDER[0] == "SystemSettings";
    hide Updates;
  }

  lemma DefaultOf(n: Input, ix: Index)
    requires Indexed(n, ix)
    ensures ix.fallback.Some? <==> ix.domains != map[]
    ensures ix.fallback.Some? ==> ix.fallback.value in ix.names
  {
    DefaultExactly(n.t, n.principals, n.signatures, ix);
  }

  /** Indexed domains and built records agree on names. */
  lemma NamedAlike(n: Input, ix: Index, built: Tables, ops: seq<Op>, i: int, domain: Cid)
    requires Describes(n, ix, built) && (domain in ix.names || domain in built.domains)
    ensures domain in ix.names && domain in built.domains
    ensures (DomainBefore(ops, i, domain) <==> n.t.isDomainName(built.domains[domain].name)) <==>
              DanglesOrNot(n.t, ix, ops, i, domain)
  {
    hide DomainBefore, TenantsBuilt, AccountsBuilt, ListsBuilt, SignaturesBuilt, DomainTenant, Numbered, LexLess;
    var records :| DomainsNumbered(n, ix, |built.tenants|, records, built.domains);
  }

  /** The default domain and everything else the fields hold fits any other default. */
  lemma DefaultIsNoMatter(n: Input, ix: Index, ix': Index, low: nat, domains: map<Cid, Domain>)
    requires DomainsBuilt(n, ix, low, domains) && ix' == ix.(fallback := ix'.fallback)
    ensures DomainsBuilt(n, ix', low, domains)
  {
    hide DomainTenant, Numbered, LexLess;
    var records :| DomainsNumbered(n, ix, low, records, domains);
    assert DomainsNumbered(n, ix', low, records, domains);
  }

  lemma NothingNumbered<T>(low: nat)
    ensures Numbered<T>(low, []) == map[]
  {}

  lemma NoNames()
    ensures NonEmpty([]) == []
  {}

  lemma NonEmptyMore(names: seq<string>, k: nat)
    requires k < |names|
    ensures NonEmpty(names[..k + 1]) == NonEmpty(names[..k]) + if names[k] == "" then [] else [names[k]]
  {
    assert names[..k + 1][..k] == names[..k];
  }

  lemma {:induction false} NonEmptyCounts(names: seq<string>)
    ensures multiset(NonEmpty(names)) == multiset(names)["" := 0]
  {
    if names == [] {
    } else {
      var init, last := names[..|names| - 1], names[|names| - 1];
      assert names == init + [last];
      NonEmptyCounts(init);
    }
  }

  lemma {:induction false} NonEmptyIsOrdered(names: seq<string>)
    requires Ordered(names, false)
    ensures Ordered(NonEmpty(names), false) && forall name :: name in NonEmpty(names) ==> name in names
  {
    hide Before;
    if names == [] {
    } else {
      var init, last := names[..|names| - 1], names[|names| - 1];
      assert names == init + [last];
      assert Ordered(init, false);
      NonEmptyIsOrdered(init);
      forall i | 0 <= i < |NonEmpty(init)|
        ensures !Before(last, NonEmpty(init)[i], false)
      {
        assert NonEmpty(init)[i] in init;
        var j :| 0 <= j < |init| && init[j] == NonEmpty(init)[i];
        assert names[j] == init[j] && names[|names| - 1] == last;
      }
    }
  }

  /** Dropping empty names keeps the order and the same other names. */
  lemma NonEmptyKeeps(names: seq<string>, sorted: seq<string>)
    requires multiset(names) == multiset(sorted) && Ordered(sorted, false)
    ensures Ordered(NonEmpty(sorted), false) && multiset(NonEmpty(sorted)) == multiset(NonEmpty(names))
  {
    NonEmptyCounts(names);
    NonEmptyCounts(sorted);
    NonEmptyIsOrdered(sorted);
  }

  lemma InOrderOfNames(names: seq<string>, records: seq<Domain>)
    requires Ordered(names, false) && |records| == |names|
    requires forall j :: 0 <= j < |names| ==> records[j].name == names[j]
    ensures forall i, j :: 0 <= i < j < |records| ==> !LexLess(records[j].name, records[i].name)
  {
    forall i, j | 0 <= i < j < |records|
      ensures !LexLess(records[j].name, records[i].name)
    {
      assert !Before(names[j], names[i], false);
    }
  }

  lemma InsertedOnce(before: seq<nat>, k: nat, x: nat, after: seq<nat>)
    requires k <= |before| && after == before[..k] + [x] + before[k..]
    ensures forall y :: y in after <==> y in before || y == x
  {
    assert before == before[..k] + before[k..];
  }

  /** The next list in order comes behind all that have been taken from the earlier ones. */
  lemma LaterOwner(principals: seq<Principal>, order: seq<nat>, k: nat, owners: seq<nat>)
    requires InListOrder(principals, order) && k < |order| && InListOrder(principals, owners)
    requires forall i :: i in owners ==> i in order[..k]
    ensures InListOrder(principals, owners + [order[k]])
  {
    hide ListBefore;
    forall j | 0 <= j < |owners|
      ensures ListBefore(principals, owners[j], order[k])
    {
      assert owners[j] in owners;
      var h :| 0 <= h < k && order[h] == owners[j];
    }
  }

  /** A principal that is no account changes nothing; an account needs its own entry. */
  lemma AccountsGrow(t: Texts, ix: Index, principals: seq<Principal>, i: nat, out: map<Cid, Account>)
    requires i < |principals| && AccountsBuilt(t, ix, principals[..i], out)
    ensures !IsAccountKind(principals[i].kind) ==> AccountsBuilt(t, ix, principals[..i + 1], out)
    ensures IsAccountKind(principals[i].kind) && principals[i].id.Some? ==>
              var cid := Restored(principals[i].id.value);
              && (forall a :: cid !in out && AccountOf(t, ix, principals[i], a) ==>
                    AccountsBuilt(t, ix, principals[..i + 1], out[cid := a]))
              && (cid in out ==> AccountFails(t, ix, principals, i, DuplicateAccount))
  {
    hide Resolves, AccountOf;
    var more := principals[..i + 1];
    assert more == principals[..i] + [principals[i]];
  }

  lemma NothingIndexed(t: Texts, principals: seq<Principal>, tenants: map<string, Cid>)
    ensures Inverse(map[], map[]) && OwnersIndexed(t, principals, tenants, map[], map[])
  {}

  /** One more domain under a new client id. */
  lemma IndexOne(t: Texts, principals: seq<Principal>, tenants: map<string, Cid>, domains: map<string, Cid>,
                 names: map<Cid, string>, owners: map<Cid, Cid>, d: string, cid: Cid)
    requires Inverse(domains, names) && OwnersIndexed(t, principals, tenants, names, owners)
    requires d !in domains && cid !in names
    ensures Inverse(domains[d := cid], names[cid := d])
    ensures var tenant := DomainTenant(t, principals, tenants, d);
            OwnersIndexed(t, principals, tenants, names[cid := d], if tenant.Some? then owners[cid := tenant.value] else owners)
  {
    hide DomainTenant;
  }

  lemma {:induction false} EmailDomainsNonempty(t: Texts, emails: seq<string>)
    ensures "" !in EmailDomains(t, emails)
  {
    if emails == [] {
    } else {
      EmailDomainsNonempty(t, emails[..|emails| - 1]);
    }
  }

  lemma OnlyKey(m: map<string, Cid>, only: string)
    requires |m| == 1 && only in m
    ensures forall d :: d in m <==> d == only
  {
    assert |m.Keys - {only}| == 0;
    forall d | d in m
      ensures d == only
    {
      assert d !in m.Keys - {only};
    }
  }

  lemma OutvotesItself(t: Texts, principals: seq<Principal>, d: string)
    ensures Outvotes(t, principals, d, d)
  {
    LexTotal(d, d);
  }

  lemma LeastOutvotes(t: Texts, principals: seq<Principal>, names: seq<string>, all: set<string>)
    requires Ordered(names, false) && names != [] && forall x :: x in names <==> x in all
    requires forall d :: Votes(t, principals, d) == 0
    ensures forall d :: d in all ==> Outvotes(t, principals, names[0], d)
  {
    OutvotesItself(t, principals, names[0]);
    forall d | d in all
      ensures !LexLess(d, names[0])
    {
      var i :| 0 <= i < |names| && names[i] == d;
      assert i > 0 ==> !Before(names[i], names[0], false);
    }
  }

  lemma {:induction false} VoterOf(t: Texts, principals: seq<Principal>, d: string) returns (i: nat)
    requires Votes(t, principals, d) > 0
    ensures i < |principals| && IsMailKind(principals[i].kind) && InferDomain(t, principals[i]) == Some(d)
  {
    i := |principals| - 1;
    if !(IsMailKind(principals[i].kind) && InferDomain(t, principals[i]) == Some(d)) {
      i := VoterOf(t, principals[..i], d);
    }
  }

  // ----- From the settings ----------------------------------------------------------------------

  function Dict(settings: SubTrees.Settings): map<string, string> {
    if settings == [] then map[]
    else
      var last := settings[|settings| - 1];
      Dict(settings[..|settings| - 1])[last.0 := last.1]
  }

  /** Macros expand against the settings, the environment and readable files. */
  function WorldOf(t: Texts, settings: SubTrees.Settings, env: map<string, string>, files: map<string, string>): Macros.World {
    Macros.World(Dict(settings), env, files, t.strip)
  }

  ghost function InputOf(t: Texts, principals: seq<Principal>, settings: SubTrees.Settings, env: map<string, string>,
                         files: map<string, string>, signatures: seq<Signature>, certificateCount: nat,
                         otherSettings: set<string>): Input {
    Input(t, WorldOf(t, settings, env, files), principals, signatures, certificateCount, otherSettings)
  }

  /** The conversion of a settings file and its principals. */
  method Convert(t: Texts, principals: seq<Principal>, settings: SubTrees.Settings, env: map<string, string>,
                 files: map<string, string>, certificateCount: nat, otherSettings: set<string>)
    returns (r: Result<seq<Op>, ConvertError>)
    requires SubTrees.IsDict(settings) && "SystemSettings" !in otherSettings
    ensures r.Err? ==>
              r.error != MissingDomain
              && exists signatures, ix, n ::
                   SignaturesIn(settings, signatures)
                   && Indexed(InputOf(t, principals, settings, env, files, signatures, certificateCount, otherSettings), ix)
                   && AccountFails(t, ix, principals, n, r.error)
    ensures r.Ok? ==>
              exists signatures, ix, built, kept ::
                SignaturesIn(settings, signatures)
                && Converted(InputOf(t, principals, settings, env, files, signatures, certificateCount, otherSettings),
                             ix, built, kept, r.value)
  {
    hide AccountFails, Converted, SignaturesIn, Indexed;
    var signatures := SignatureTrees(settings);
    var converter :=
      new Converter(t, WorldOf(t, settings, env, files), principals, signatures, certificateCount, otherSettings);
    r := converter.Run();
    assert converter.In() == InputOf(t, principals, settings, env, files, signatures, certificateCount, otherSettings);
    if r.Ok? {
      ghost var built, kept :| Converted(converter.In(), converter.Ix(), built, kept, r.value);
    }
  }

  // ----- An alias that dangles ----------------------------------------------------------------

  /** Texts as the script has them, as far as the two names need: `b` has only one label and is no host name. */
  ghost predicate JudgesLikeScript(t: Texts) {
    t.stripLower("g.co") == "g.co" && t.stripLower("b") == "b" && t.isDomainName("g.co") && !t.isDomainName("b")
  }

  /** A list on the accepted domain with an address on a rejected one. */
  const LIST := Principal(MailList, None, "l@g.co", ["x@b"], "")

  lemma ListAddresses(t: Texts)
    requires JudgesLikeScript(t)
    ensures SplitEmail(t, "l@g.co") == Some(("l", "g.co")) && SplitEmail(t, "x@b") == Some(("x", "b"))
  {
    assert "l@g.co"[1] == '@' && "x@b"[1] == '@';
    assert "l@g.co"[2..] == "g.co" && "x@b"[2..] == "b" && "l@g.co"[..1] == "l" && "x@b"[..1] == "x";
    assert LastAt("l@g.co") == 1 && LastAt("x@b") == 1;
  }

  lemma BothIndexed(n: Input, ix: Index)
    requires JudgesLikeScript(n.t) && n.principals == [LIST] && Indexed(n, ix)
    ensures "g.co" in ix.domains && "b" in ix.domains && Inverse(ix.domains, ix.names)
  {
    hide DefaultPicked, OwnersIndexed, SplitEmail, Inverse;
    ListAddresses(n.t);
    assert EmailDomains(n.t, ["x@b"]) == EmailDomains(n.t, []) + AddressDomain(n.t, "x@b") by {
      assert ["x@b"][..0] == [];
    }
    assert n.principals[0] == LIST;
    assert NamedByPrincipal(n.t, n.principals, "g.co") && NamedByPrincipal(n.t, n.principals, "b");
  }

  lemma ListIsNumbered(n: Input, ix: Index, low: nat, lists: map<Cid, MailingList>) returns (c: Cid)
    requires JudgesLikeScript(n.t) && n.principals == [LIST] && ListsBuilt(n, ix, low, lists)
    ensures c in lists && ListOf(n.t, ix, LIST, lists[c])
  {
    hide ListOf, Numbered, SplitEmail;
    ListAddresses(n.t);
    assert "l@g.co"[1] == '@';
    var owners, records :| ListsFrom(n, ix, owners, records) && lists == Numbered(low, records);
    NumberedKeys(low, records);
    assert n.principals[0] == LIST && 0 in owners;
    var k :| 0 <= k < |owners| && owners[k] == 0;
    c := Created(low + k);
  }

  lemma ListIsBuilt(n: Input, ix: Index, built: Tables) returns (c: Cid, l: MailingList, a: Alias)
    requires JudgesLikeScript(n.t) && n.principals == [LIST] && Indexed(n, ix) && Describes(n, ix, built)
    ensures c in built.lists && built.lists[c] == l && l.domain in ix.names && ix.names[l.domain] == "g.co"
    ensures a in l.aliases && a.domain in ix.names && ix.names[a.domain] == "b"
  {
    hide TenantsBuilt, DomainsBuilt, AccountsBuilt, SignaturesBuilt, ListsBuilt, Indexed, SplitEmail;
    ListAddresses(n.t);
    BothIndexed(n, ix);
    c := ListIsNumbered(n, ix, |built.tenants| + |built.domains|, built.lists);
    l, a := built.lists[c], Alias("x", ix.domains["b"]);
    assert "l@g.co"[1] == '@';
    assert AliasAt(n.t, ix, LIST.emails[0], a);
  }

  /** Validation keeps the list with its alias, whose domain no operation creates. */
  lemma AliasDangles(n: Input, ix: Index, built: Tables, kept: Tables, ops: seq<Op>)
    requires JudgesLikeScript(n.t) && n.principals == [LIST] && Converted(n, ix, built, kept, ops)
    ensures exists i, c, l, a :: Holds(ops, i, c, ListRecord(l)) && a in l.aliases && !DomainBefore(ops, |ops|, a.domain)
  {
    hide Indexed, Describes, Staged, Holds, ReferencesBefore, DomainBefore, CollectionsOf, AccountsValidated, Conserves;
    hide UpdatesExactlyAtEnd;
    var c, l, a := ListIsBuilt(n, ix, built);
    NameOfBuilt(n, ix, built, l.domain);
    NameOfBuilt(n, ix, built, a.domain);
    assert c in kept.lists && kept.lists[c] == l;
    CollectionsHold(kept, c, ListRecord(l));
    var i := ExportedAt(kept, ops, c, ListRecord(l));
    DomainExactly(n.t, built, kept, ops, a.domain);
  }

  lemma ExportedAt(kept: Tables, ops: seq<Op>, c: Cid, r: Record) returns (i: int)
    requires Conserves(CollectionsOf(kept), ops) && HasRecord(CollectionsOf(kept), c, r)
    ensures Holds(ops, i, c, r)
  {
    hide CollectionsOf, HasRecord, Holds;
    i :| Holds(ops, i, c, r);
  }

  lemma NameOfBuilt(n: Input, ix: Index, built: Tables, domain: Cid)
    requires Describes(n, ix, built) && domain in ix.names
    ensures domain in built.domains && built.domains[domain].name == ix.names[domain]
  {
    hide TenantsBuilt, AccountsBuilt, ListsBuilt, SignaturesBuilt, DomainTenant, Numbered, LexLess;
    var records :| DomainsNumbered(n, ix, |built.tenants|, records, built.domains);
  }

  /** A conversion that succeeds and whose export refers to a domain it never creates. */
  method DanglingAlias(t: Texts) returns (ops: seq<Op>)
    requires JudgesLikeScript(t)
    ensures exists i, c, l, a :: Holds(ops, i, c, ListRecord(l)) && a in l.aliases && !DomainBefore(ops, |ops|, a.domain)
  {
    hide Converted;
    var r := Convert(t, [LIST], [], map[], map[], 0, {});
    ops := r.value;
    ghost var signatures, ix, built, kept :|
      Converted(InputOf(t, [LIST], [], map[], map[], signatures, 0, {}), ix, built, kept, ops);
    AliasDangles(InputOf(t, [LIST], [], map[], map[], signatures, 0, {}), ix, built, kept, ops);
  }
}
