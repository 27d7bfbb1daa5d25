/**
 The records of the v0.16 migration: validation (`_validate_records`) and export order (`build_export_ops`) of
 resources/scripts/migrate_v016.py.
 */
module Records {
  import opened Common

  // ----- Data model ---------------------------------------------------------------------------

  /** Client ids: a running number for created records, the old id for accounts. */
  datatype Cid = Created(n: nat) | Restored(id: int)

  /** References to tenants and domains are client ids. */
  datatype Domain = Domain(name: string, tenant: Option<Cid>)
  datatype Alias = Alias(name: string, domain: Cid)
  datatype Account = Account(isGroup: bool, name: string, domain: Cid, aliases: seq<Alias>, tenant: Option<Cid>)
  datatype MailingList = MailingList(name: string, domain: Cid, aliases: seq<Alias>, tenant: Option<Cid>)
  datatype Algorithm = Ed25519Sha256 | RsaSha256
  datatype Dkim = Dkim(algorithm: Algorithm, canonicalization: string, domain: Cid, privateKey: string, selector: string,
                       tenant: Option<Cid>)

  /** The records the converter builds, by client id; the map of tenants holds their names. */
  datatype Tables = Tables(tenants: map<Cid, string>, domains: map<Cid, Domain>, accounts: map<Cid, Account>,
                           lists: map<Cid, MailingList>, signatures: map<Cid, Dkim>, certificates: set<Cid>)

  /** Text functions of Python and the host name check, kept abstract. */
  datatype Texts = Texts(stripLower: string -> string, strip: string -> string, isDomainName: string -> bool)

  // ----- Validation ---------------------------------------------------------------------------

  /** The domains validation rejects. */
  function BadDomains(t: Texts, domains: map<Cid, Domain>): set<Cid> {
    set c | c in domains && !t.isDomainName(domains[c].name)
  }

  /** `name.replace("@", "")` */
  function WithoutAt(name: string): string {
    if name == "" then "" else (if name[0] == '@' then "" else [name[0]]) + WithoutAt(name[1..])
  }

  /** All `@`s go, and nothing else. */
  lemma {:induction false} WithoutAtExactly(a: string, b: string)
    ensures '@' !in WithoutAt(a) && ('@' !in a ==> WithoutAt(a) == a)
    ensures WithoutAt(a + "@" + b) == WithoutAt(a) + WithoutAt(b)
  {
    if a == "" {
      assert (a + "@" + b)[1..] == b;
      assert "" + WithoutAt(b) == WithoutAt(b);
    } else {
      var c, rest := a[0], a[1..];
      var kept := if c == '@' then "" else [c];
      WithoutAtExactly(rest, b);
      AtHead(c, rest);
      AtHead(c, rest + "@" + b);
      assert a == [c] + rest && a + "@" + b == [c] + (rest + "@" + b);
      Associates(kept, WithoutAt(rest), WithoutAt(b));
    }
  }

  lemma AtHead(c: char, rest: string)
    ensures WithoutAt([c] + rest) == (if c == '@' then "" else [c]) + WithoutAt(rest)
  {
    assert ([c] + rest)[1..] == rest;
  }

  predicate IsLocalPart(name: string) { name != "" && '@' !in name }

  function Renamed(t: Texts, name: string): string {
    if '@' in name then t.strip(WithoutAt(name)) else name
  }

  predicate AccountSurvives(t: Texts, bad: set<Cid>, a: Account) {
    a.domain !in bad && ('@' in a.name ==> IsLocalPart(Renamed(t, a.name)))
  }

  predicate AliasSurvives(bad: set<Cid>, alias: Alias) { alias.domain !in bad && '@' !in alias.name }

  function SurvivingAliases(bad: set<Cid>, aliases: seq<Alias>): (kept: seq<Alias>)
    ensures forall a :: a in kept <==> a in aliases && a.domain !in bad && '@' !in a.name
  {
    if aliases == [] then []
    else
      var last := aliases[|aliases| - 1];
      assert aliases == aliases[..|aliases| - 1] + [last];
      SurvivingAliases(bad, aliases[..|aliases| - 1]) + if AliasSurvives(bad, last) then [last] else []
  }

  /** What validation leaves of the accounts. */
  ghost predicate AccountsValidated(t: Texts, bad: set<Cid>, accounts: map<Cid, Account>, kept: map<Cid, Account>) {
    && (forall c :: c in kept <==> c in accounts && AccountSurvives(t, bad, accounts[c]))
    && (forall c :: c in kept ==>
          kept[c] == accounts[c].(name := Renamed(t, accounts[c].name),
                                  aliases := SurvivingAliases(bad, accounts[c].aliases)))
  }

  method ValidateDomains(t: Texts, domains: map<Cid, Domain>) returns (kept: map<Cid, Domain>, bad: set<Cid>)
    ensures bad == BadDomains(t, domains) && kept == domains - bad
  {
    bad := {};
    kept := domains;
    var todo := domains.Keys;
    while todo != {}
      invariant todo <= domains.Keys && bad == BadDomains(t, domains) - todo && kept == domains - bad
    {
      var cid :| cid in todo;
      if !t.isDomainName(domains[cid].name) {
        bad := bad + {cid};
        kept := kept - {cid};
      }
      todo := todo - {cid};
    }
  }

  /** Drops accounts of rejected domains, repairs or drops names with `@`, filters aliases. */
  method ValidateAccounts(t: Texts, accounts: map<Cid, Account>, bad: set<Cid>) returns (kept: map<Cid, Account>)
    ensures AccountsValidated(t, bad, accounts, kept)
  {
    kept := accounts;
    var todo := accounts.Keys;
    while todo != {}
      invariant todo <= accounts.Keys
      invariant forall c :: c in kept <==> c in todo || (c in accounts && AccountSurvives(t, bad, accounts[c]))
      invariant forall c :: c in todo ==> kept[c] == accounts[c]
      invariant forall c :: c in kept && c !in todo ==>
                  kept[c] == accounts[c].(name := Renamed(t, accounts[c].name),
                                          aliases := SurvivingAliases(bad, accounts[c].aliases))
    {
      var cid :| cid in todo;
      todo := todo - {cid};
      var account := kept[cid];
      if account.domain in bad {
        kept := kept - {cid};
        continue;
      }
      if '@' in account.name {
        var trimmed := t.strip(WithoutAt(account.name));
        if !IsLocalPart(trimmed) {
          kept := kept - {cid};
          continue;
        }
        account := account.(name := trimmed);
      }
      var aliases := KeepAliases(bad, account.aliases);
      kept := kept[cid := account.(aliases := aliases)];
    }
  }

  method KeepAliases(bad: set<Cid>, aliases: seq<Alias>) returns (kept: seq<Alias>)
    ensures kept == SurvivingAliases(bad, aliases)
  {
    kept := [];
    for i := 0 to |aliases|
      invariant kept == SurvivingAliases(bad, aliases[..i])
    {
      assert aliases[..i + 1][..i] == aliases[..i];
      if aliases[i].domain in bad { continue; }
      if '@' in aliases[i].name { continue; }
      kept := kept + [aliases[i]];
    }
    assert aliases[..|aliases|] == aliases;
  }

  /** Mailing lists only lose those of rejected domains; their aliases stay as they are. */
  method ValidateLists(lists: map<Cid, MailingList>, bad: set<Cid>) returns (kept: map<Cid, MailingList>)
    ensures kept == map c | c in lists && lists[c].domain !in bad :: lists[c]
  {
    kept := lists;
    var todo := lists.Keys;
    while todo != {}
      invariant todo <= lists.Keys
      invariant kept == map c | c in lists && (c in todo || lists[c].domain !in bad) :: lists[c]
    {
      var cid :| cid in todo;
      if lists[cid].domain in bad { kept := kept - {cid}; }
      todo := todo - {cid};
    }
  }

  method ValidateDkim(signatures: map<Cid, Dkim>, bad: set<Cid>) returns (kept: map<Cid, Dkim>)
    ensures kept == map c | c in signatures && signatures[c].domain !in bad :: signatures[c]
  {
    kept := signatures;
    var todo := signatures.Keys;
    while todo != {}
      invariant todo <= signatures.Keys
      invariant kept == map c | c in signatures && (c in todo || signatures[c].domain !in bad) :: signatures[c]
    {
      var cid :| cid in todo;
      if signatures[cid].domain in bad { kept := kept - {cid}; }
      todo := todo - {cid};
    }
  }

  // ----- Export -------------------------------------------------------------------------------

  datatype Record =
    | TenantRecord(tenantName: string)
    | DomainRecord(domain: Domain)
    | AccountRecord(account: Account)
    | ListRecord(list: MailingList)
    | DkimRecord(signature: Dkim)
    | CertificateRecord

  /** The object types with one record per client id. */
  datatype ObjectType = Tenants | Domains | Accounts | MailingLists | DkimSignatures | Certificates

  datatype Op = Create(target: ObjectType, records: map<Cid, Record>) | Update(singleton: string)

  type Collections = map<ObjectType, map<Cid, Record>>

  const COLLECTION_ORDER := [Tenants, Domains, Accounts, MailingLists, DkimSignatures, Certificates]

  const SINGLETON_ORDER :=
    ["SystemSettings", "Enterprise", "BlobStore", "InMemoryStore", "SearchStore", "MetricsStore", "TracingStore"]

  /** The place of a record in the export: its collection's, with groups before users. */
  function Slot(r: Record): nat {
    match r
    case TenantRecord(_) => 0
    case DomainRecord(_) => 2
    case AccountRecord(a) => if a.isGroup then 4 else 5
    case ListRecord(_) => 6
    case DkimRecord(_) => 8
    case CertificateRecord => 10
  }

  function ObjectOf(r: Record): ObjectType { COLLECTION_ORDER[Slot(r) / 2] }

  /** Every collection holds records of its own kind. */
  ghost predicate Typed(collections: Collections) {
    forall name, c :: name in collections && c in collections[name] ==> ObjectOf(collections[name][c]) == name
  }

  ghost predicate Holds(ops: seq<Op>, j: int, c: Cid, r: Record) {
    0 <= j < |ops| && ops[j].Create? && c in ops[j].records && ops[j].records[c] == r
  }

  ghost predicate HasRecord(collections: Collections, c: Cid, r: Record) {
    ObjectOf(r) in collections && c in collections[ObjectOf(r)] && collections[ObjectOf(r)][c] == r
  }

  /** The operations hold exactly the records of the collections. */
  ghost predicate Conserves(collections: Collections, ops: seq<Op>) {
    forall c, r :: HasRecord(collections, c, r) <==> exists j :: Holds(ops, j, c, r)
  }

  /**
   Slots rise from operation to operation and are constant within one, which names the object type; updates come last.
   */
  ghost predicate Staged(ops: seq<Op>) {
    && (forall j, c, r :: Holds(ops, j, c, r) ==> ops[j].target == ObjectOf(r))
    && (forall i, j, c, r, c', r' :: Holds(ops, i, c, r) && Holds(ops, j, c', r') ==> (i < j <==> Slot(r) < Slot(r')))
    && (forall i, j :: 0 <= i < j < |ops| && ops[i].Update? ==> ops[j].Update?)
  }

  /** The part of a collection one operation creates: all of it, or the groups or users among the accounts. */
  ghost function Part(collections: Collections, slot: nat): map<Cid, Record> {
    if slot / 2 >= |COLLECTION_ORDER| || COLLECTION_ORDER[slot / 2] !in collections then map[]
    else
      var records := collections[COLLECTION_ORDER[slot / 2]];
      map c | c in records && Slot(records[c]) == slot :: records[c]
  }

  /** The operations hold the records of the slots below `slot`, in order. */
  ghost predicate Exported(collections: Collections, slot: nat, ops: seq<Op>) {
    && Staged(ops)
    && (forall j :: 0 <= j < |ops| ==> ops[j].Create? && ops[j].records != map[])
    && (forall j, c, r :: Holds(ops, j, c, r) ==> Slot(r) < slot && HasRecord(collections, c, r))
    && (forall c, r :: HasRecord(collections, c, r) && Slot(r) < slot ==> exists j :: Holds(ops, j, c, r))
  }

  lemma ExportPart(collections: Collections, slot: nat, ops: seq<Op>, target: ObjectType)
    requires Typed(collections) && Exported(collections, slot, ops)
    requires slot / 2 < |COLLECTION_ORDER| && target == COLLECTION_ORDER[slot / 2]
    ensures var part := Part(collections, slot);
            Exported(collections, slot + 1, if part == map[] then ops else ops + [Create(target, part)])
  {
    hide ObjectOf;
    var part := Part(collections, slot);
    PartExactly(collections, slot);
    assert forall c :: c in part ==> ObjectOf(part[c]) == target by {
      PartIsNamed(collections, slot);
    }
    if part != map[] {
      var more := ops + [Create(target, part)];
      forall j, c, r
        ensures Holds(more, j, c, r) <==> Holds(ops, j, c, r) || (j == |ops| && c in part && part[c] == r)
      {}
      forall c, r | HasRecord(collections, c, r) && Slot(r) < slot + 1
        ensures exists j :: Holds(more, j, c, r)
      {
        if Slot(r) < slot {
          var j :| Holds(ops, j, c, r);
          assert Holds(more, j, c, r);
        } else {
          assert Holds(more, |ops|, c, r);
        }
      }
    } else {
      assert forall c, r :: HasRecord(collections, c, r) ==> Slot(r) != slot;
    }
  }

  lemma PartExactly(collections: Collections, slot: nat)
    requires Typed(collections)
    ensures var part := Part(collections, slot);
            forall c, r :: c in part && part[c] == r <==> HasRecord(collections, c, r) && Slot(r) == slot
  {}

  lemma PartIsNamed(collections: Collections, slot: nat)
    requires slot / 2 < |COLLECTION_ORDER|
    ensures var part := Part(collections, slot);
            forall c :: c in part ==> ObjectOf(part[c]) == COLLECTION_ORDER[slot / 2]
  {}

  /** A slot no record has. */
  lemma SkipSlot(collections: Collections, slot: nat, ops: seq<Op>)
    requires Exported(collections, slot, ops) && slot % 2 == 1 && slot != 5
    ensures Exported(collections, slot + 1, ops)
  {}

  /** The updates of the first `n` singletons that are present, in order. */
  function Updates(singletons: set<string>, n: nat): seq<Op>
    requires n <= |SINGLETON_ORDER|
  {
    if n == 0 then []
    else Updates(singletons, n - 1) + if SINGLETON_ORDER[n - 1] in singletons then [Update(SINGLETON_ORDER[n - 1])] else []
  }

  lemma {:induction false} UpdatesExactly(singletons: set<string>, n: nat)
    requires n <= |SINGLETON_ORDER|
    ensures forall op :: op in Updates(singletons, n) ==> op.Update?
    ensures forall name :: Update(name) in Updates(singletons, n) <==> name in SINGLETON_ORDER[..n] && name in singletons
  {
    if n == 0 {
    } else {
      UpdatesExactly(singletons, n - 1);
      assert SINGLETON_ORDER[..n] == SINGLETON_ORDER[..n - 1] + [SINGLETON_ORDER[n - 1]];
    }
  }

  predicate IsGroup(r: Record) { r.AccountRecord? && r.account.isGroup }

  /** Collections in dependency order, groups before users, then the singletons. */
  method BuildExportOps(collections: Collections, singletons: set<string>) returns (ops: seq<Op>)
    requires Typed(collections)
    ensures Conserves(collections, ops) && Staged(ops)
    ensures forall i :: 0 <= i < |ops| && ops[i].Create? ==> ops[i].records != map[]
    ensures exists creates :: ops == creates + Updates(singletons, |SINGLETON_ORDER|) && forall op :: op in creates ==> op.Create?
  {
    hide Exported, Typed, Part, Staged, Conserves, ObjectOf;
    ops := [];
    NothingExported(collections);
    for k := 0 to |COLLECTION_ORDER|
      invariant Exported(collections, 2 * k, ops)
    {
      var name := COLLECTION_ORDER[k];
      ghost var whole := Part(collections, 2 * k);
      ghost var users := Part(collections, 2 * k + 1);
      Parts(collections, k);
      ExportPart(collections, 2 * k, ops, name);
      if name == Accounts {
        ExportPart(collections, 2 * k + 1, if whole == map[] then ops else ops + [Create(name, whole)], name);
      } else {
        SkipSlot(collections, 2 * k + 1, if whole == map[] then ops else ops + [Create(name, whole)]);
      }
      if name !in collections { continue; }
      var records := collections[name];
      if records == map[] { continue; }
      if name == Accounts {
        var groups := map c | c in records && IsGroup(records[c]) :: records[c];
        var others := map c | c in records && !IsGroup(records[c]) :: records[c];
        if groups != map[] { ops := ops + [Create(name, groups)]; }
        if others != map[] { ops := ops + [Create(name, others)]; }
      } else {
        ops := ops + [Create(name, records)];
      }
    }
    ghost var creates := ops;
    for k := 0 to |SINGLETON_ORDER|
      invariant ops == creates + Updates(singletons, k)
    {
      Associates(creates, Updates(singletons, k), [Update(SINGLETON_ORDER[k])]);
      if SINGLETON_ORDER[k] in singletons {
        ops := ops + [Update(SINGLETON_ORDER[k])];
      }
    }
    UpdatesExactly(singletons, |SINGLETON_ORDER|);
    CreatesOnly(collections, creates);
    AllExported(collections, creates, ops);
  }

  /** The kinds of records in the order of their creation; users come behind all groups. */
  lemma CreatedInOrder(ops: seq<Op>, i: int, c: Cid, r: Record, j: int, c': Cid, r': Record)
    requires Staged(ops) && Holds(ops, i, c, r) && Holds(ops, j, c', r')
    ensures r.TenantRecord? && !r'.TenantRecord? ==> i < j
    ensures r.DomainRecord? && !r'.TenantRecord? && !r'.DomainRecord? ==> i < j
    ensures r.AccountRecord? && (r'.ListRecord? || r'.DkimRecord? || r'.CertificateRecord?) ==> i < j
    ensures r.AccountRecord? && r'.AccountRecord? && r.account.isGroup && !r'.account.isGroup ==> i < j
    ensures r.ListRecord? && (r'.DkimRecord? || r'.CertificateRecord?) ==> i < j
    ensures r.DkimRecord? && r'.CertificateRecord? ==> i < j
  {
    hide Holds;
  }

  lemma NothingExported(collections: Collections)
    ensures Exported(collections, 0, [])
  {}

  lemma SlotInOrder(r: Record, k: nat)
    requires k < |COLLECTION_ORDER|
    ensures ObjectOf(r) == COLLECTION_ORDER[k] ==> Slot(r) / 2 == k
    ensures COLLECTION_ORDER[k] == Accounts ==> IsGroup(r) == (Slot(r) == 4)
  {}

  lemma Parts(collections: Collections, k: nat)
    requires Typed(collections) && k < |COLLECTION_ORDER|
    ensures var name, whole, users := COLLECTION_ORDER[k], Part(collections, 2 * k), Part(collections, 2 * k + 1);
            if name !in collections then whole == map[] && users == map[]
            else if name != Accounts then whole == collections[name]
            else var records := collections[name];
                 && whole == (map c | c in records && IsGroup(records[c]) :: records[c])
                 && users == (map c | c in records && !IsGroup(records[c]) :: records[c])
  {
    hide ObjectOf, IsGroup;
    var name := COLLECTION_ORDER[k];
    assert name == Accounts <==> k == 2;
    forall c | name in collections && c in collections[name]
      ensures Slot(collections[name][c]) / 2 == k
      ensures name == Accounts ==> IsGroup(collections[name][c]) == (Slot(collections[name][c]) == 4)
    {
      SlotInOrder(collections[name][c], k);
    }
  }

  lemma CreatesOnly(collections: Collections, creates: seq<Op>)
    requires Exported(collections, 12, creates)
    ensures forall op :: op in creates ==> op.Create?
  {}

  lemma AllExported(collections: Collections, creates: seq<Op>, ops: seq<Op>)
    requires Exported(collections, 12, creates) && |creates| <= |ops| && ops[..|creates|] == creates
    requires forall i :: |creates| <= i < |ops| ==> ops[i].Update?
    ensures Conserves(collections, ops) && Staged(ops)
    ensures forall i :: 0 <= i < |ops| && ops[i].Create? ==> ops[i].records != map[]
  {
    hide ObjectOf;
    assert forall i :: 0 <= i < |creates| ==> ops[i] == creates[i];
    assert forall j, c, r :: Holds(ops, j, c, r) <==> Holds(creates, j, c, r);
  }

  // ----- References ---------------------------------------------------------------------------

  ghost predicate TenantBefore(ops: seq<Op>, i: int, cid: Cid) {
    exists j, r :: j < i && Holds(ops, j, cid, r) && r.TenantRecord?
  }

  ghost predicate DomainBefore(ops: seq<Op>, i: int, cid: Cid) {
    exists j, r :: j < i && Holds(ops, j, cid, r) && r.DomainRecord?
  }

  /** The references of a record are created before operation `i`; those of mailing-list aliases are not meant. */
  ghost predicate ReferencesBefore(ops: seq<Op>, i: int, r: Record) {
    match r
    case TenantRecord(_) => true
    case DomainRecord(d) => d.tenant.Some? ==> TenantBefore(ops, i, d.tenant.value)
    case AccountRecord(a) =>
      && DomainBefore(ops, i, a.domain)
      && (forall k :: 0 <= k < |a.aliases| ==> DomainBefore(ops, i, a.aliases[k].domain))
      && (a.tenant.Some? ==> TenantBefore(ops, i, a.tenant.value))
    case ListRecord(l) => DomainBefore(ops, i, l.domain) && (l.tenant.Some? ==> TenantBefore(ops, i, l.tenant.value))
    case DkimRecord(s) => DomainBefore(ops, i, s.domain) && (s.tenant.Some? ==> TenantBefore(ops, i, s.tenant.value))
    case CertificateRecord => true
  }

  ghost predicate HasTenant(collections: Collections, cid: Cid) {
    exists r :: HasRecord(collections, cid, r) && r.TenantRecord?
  }

  ghost predicate HasDomain(collections: Collections, cid: Cid) {
    exists r :: HasRecord(collections, cid, r) && r.DomainRecord?
  }

  /** The references of a record name records of the collections. */
  ghost predicate ReferencesKnown(collections: Collections, r: Record) {
    match r
    case TenantRecord(_) => true
    case DomainRecord(d) => d.tenant.Some? ==> HasTenant(collections, d.tenant.value)
    case AccountRecord(a) =>
      && HasDomain(collections, a.domain)
      && (forall k :: 0 <= k < |a.aliases| ==> HasDomain(collections, a.aliases[k].domain))
      && (a.tenant.Some? ==> HasTenant(collections, a.tenant.value))
    case ListRecord(l) => HasDomain(collections, l.domain) && (l.tenant.Some? ==> HasTenant(collections, l.tenant.value))
    case DkimRecord(s) => HasDomain(collections, s.domain) && (s.tenant.Some? ==> HasTenant(collections, s.tenant.value))
    case CertificateRecord => true
  }

  lemma TenantComesBefore(collections: Collections, ops: seq<Op>, i: int, c: Cid, r: Record, cid: Cid)
    requires Conserves(collections, ops) && Staged(ops) && Holds(ops, i, c, r) && Slot(r) > 0
    ensures HasTenant(collections, cid) ==> TenantBefore(ops, i, cid)
  {
    hide ObjectOf;
    if HasTenant(collections, cid) {
      var t :| HasRecord(collections, cid, t) && t.TenantRecord?;
      var j :| Holds(ops, j, cid, t);
    }
  }

  /** A domain of the collections is created by an earlier operation than any record that can refer to it. */
  lemma DomainComesBefore(collections: Collections, ops: seq<Op>, i: int, c: Cid, r: Record, cid: Cid)
    requires Conserves(collections, ops) && Staged(ops) && Holds(ops, i, c, r) && Slot(r) > 2
    ensures HasDomain(collections, cid) <==> DomainBefore(ops, i, cid)
  {
    hide ObjectOf;
    if HasDomain(collections, cid) {
      var d :| HasRecord(collections, cid, d) && d.DomainRecord?;
      var j :| Holds(ops, j, cid, d);
    }
  }

  /** Export order respects references: whatever is known to the collections is created in time. */
  lemma ReferencesInTime(collections: Collections, ops: seq<Op>, i: int, c: Cid, r: Record)
    requires Conserves(collections, ops) && Staged(ops) && Holds(ops, i, c, r)
    requires ReferencesKnown(collections, r)
    ensures ReferencesBefore(ops, i, r)
  {
    hide Conserves, Staged, Holds, HasTenant, HasDomain, TenantBefore, DomainBefore;
    match r
    case TenantRecord(_) =>
    case DomainRecord(d) =>
      if d.tenant.Some? { TenantComesBefore(collections, ops, i, c, r, d.tenant.value); }
    case AccountRecord(a) =>
      DomainComesBefore(collections, ops, i, c, r, a.domain);
      forall k | 0 <= k < |a.aliases|
        ensures DomainBefore(ops, i, a.aliases[k].domain)
      {
        DomainComesBefore(collections, ops, i, c, r, a.aliases[k].domain);
      }
      if a.tenant.Some? { TenantComesBefore(collections, ops, i, c, r, a.tenant.value); }
    case ListRecord(l) =>
      DomainComesBefore(collections, ops, i, c, r, l.domain);
      if l.tenant.Some? { TenantComesBefore(collections, ops, i, c, r, l.tenant.value); }
    case DkimRecord(s) =>
      DomainComesBefore(collections, ops, i, c, r, s.domain);
      if s.tenant.Some? { TenantComesBefore(collections, ops, i, c, r, s.tenant.value); }
    case CertificateRecord =>
  }

  // ----- The converter's result ---------------------------------------------------------------

  function CollectionsOf(b: Tables): Collections {
    map[Tenants := map c | c in b.tenants :: TenantRecord(b.tenants[c]),
        Domains := map c | c in b.domains :: DomainRecord(b.domains[c]),
        Accounts := map c | c in b.accounts :: AccountRecord(b.accounts[c]),
        MailingLists := map c | c in b.lists :: ListRecord(b.lists[c]),
        DkimSignatures := map c | c in b.signatures :: DkimRecord(b.signatures[c]),
        Certificates := map c | c in b.certificates :: CertificateRecord]
  }

  ghost predicate IsIn(b: Tables, c: Cid, r: Record) {
    match r
    case TenantRecord(name) => c in b.tenants && b.tenants[c] == name
    case DomainRecord(d) => c in b.domains && b.domains[c] == d
    case AccountRecord(a) => c in b.accounts && b.accounts[c] == a
    case ListRecord(l) => c in b.lists && b.lists[c] == l
    case DkimRecord(s) => c in b.signatures && b.signatures[c] == s
    case CertificateRecord => c in b.certificates
  }

  lemma CollectionsTyped(b: Tables)
    ensures Typed(CollectionsOf(b))
  {
    var all := CollectionsOf(b);
    forall name, c | name in all && c in all[name]
      ensures ObjectOf(all[name][c]) == name
    {
      match name
      case Tenants => assert all[name][c].TenantRecord?;
      case Domains => assert all[name][c].DomainRecord?;
      case Accounts => assert all[name][c].AccountRecord?;
      case MailingLists => assert all[name][c].ListRecord?;
      case DkimSignatures => assert all[name][c].DkimRecord?;
      case Certificates => assert all[name][c].CertificateRecord?;
    }
  }

  lemma CollectionsHold(b: Tables, c: Cid, r: Record)
    ensures HasRecord(CollectionsOf(b), c, r) <==> IsIn(b, c, r)
  {
    match r
    case TenantRecord(_) => assert ObjectOf(r) == Tenants;
    case DomainRecord(_) => assert ObjectOf(r) == Domains;
    case AccountRecord(_) => assert ObjectOf(r) == Accounts;
    case ListRecord(_) => assert ObjectOf(r) == MailingLists;
    case DkimRecord(_) => assert ObjectOf(r) == DkimSignatures;
    case CertificateRecord => assert ObjectOf(r) == Certificates;
  }

  lemma HasExactly(b: Tables, cid: Cid)
    ensures HasTenant(CollectionsOf(b), cid) <==> cid in b.tenants
    ensures HasDomain(CollectionsOf(b), cid) <==> cid in b.domains
  {
    hide CollectionsOf, HasRecord;
    forall r
      ensures HasRecord(CollectionsOf(b), cid, r) <==> IsIn(b, cid, r)
    {
      CollectionsHold(b, cid, r);
    }
    if cid in b.tenants { assert IsIn(b, cid, TenantRecord(b.tenants[cid])); }
    if cid in b.domains { assert IsIn(b, cid, DomainRecord(b.domains[cid])); }
  }

  // ----- Links --------------------------------------------------------------------------------

  predicate Known<T>(records: map<Cid, T>, reference: Option<Cid>) {
    reference.Some? ==> reference.value in records
  }

  /** Every reference names a record, those of mailing-list aliases included. */
  ghost predicate AllLinked(b: Tables) {
    && (forall c :: c in b.domains ==> Known(b.tenants, b.domains[c].tenant))
    && (forall c :: c in b.accounts ==> b.accounts[c].domain in b.domains && Known(b.tenants, b.accounts[c].tenant))
    && (forall c, a :: c in b.accounts && a in b.accounts[c].aliases ==> a.domain in b.domains)
    && (forall c :: c in b.lists ==> b.lists[c].domain in b.domains && Known(b.tenants, b.lists[c].tenant))
    && (forall c, a :: c in b.lists && a in b.lists[c].aliases ==> a.domain in b.domains)
    && (forall c :: c in b.signatures ==> b.signatures[c].domain in b.domains && Known(b.tenants, b.signatures[c].tenant))
  }

  /** No client id stands for two records. */
  ghost predicate Apart(b: Tables) {
    && b.tenants.Keys !! b.domains.Keys !! b.accounts.Keys !! b.lists.Keys !! b.signatures.Keys !! b.certificates
  }

  /** What validation leaves. */
  ghost predicate Validated(t: Texts, b: Tables, v: Tables) {
    var bad := BadDomains(t, b.domains);
    && v.tenants == b.tenants && v.domains == b.domains - bad && v.certificates == b.certificates
    && AccountsValidated(t, bad, b.accounts, v.accounts)
    && v.lists == (map l | l in b.lists && b.lists[l].domain !in bad :: b.lists[l])
    && v.signatures == (map s | s in b.signatures && b.signatures[s].domain !in bad :: b.signatures[s])
  }

  method Validate(t: Texts, b: Tables) returns (v: Tables)
    ensures Validated(t, b, v)
  {
    hide AccountsValidated, BadDomains;
    var domains, bad := ValidateDomains(t, b.domains);
    var accounts := ValidateAccounts(t, b.accounts, bad);
    var lists := ValidateLists(b.lists, bad);
    var signatures := ValidateDkim(b.signatures, bad);
    v := b.(domains := domains, accounts := accounts, lists := lists, signatures := signatures);
  }

  /** The references of a record, those of mailing-list aliases excepted, are in the tables. */
  ghost predicate LinkedRecord(b: Tables, r: Record) {
    match r
    case TenantRecord(_) => true
    case DomainRecord(d) => Known(b.tenants, d.tenant)
    case AccountRecord(a) =>
      && a.domain in b.domains && Known(b.tenants, a.tenant)
      && forall k :: 0 <= k < |a.aliases| ==> a.aliases[k].domain in b.domains
    case ListRecord(l) => l.domain in b.domains && Known(b.tenants, l.tenant)
    case DkimRecord(s) => s.domain in b.domains && Known(b.tenants, s.tenant)
    case CertificateRecord => true
  }

  /** Validation keeps the references of every record it keeps. */
  lemma ValidationKeepsLinks(t: Texts, b: Tables, v: Tables, c: Cid, r: Record)
    requires AllLinked(b) && Validated(t, b, v) && IsIn(v, c, r)
    ensures LinkedRecord(v, r)
  {
    hide BadDomains, Known, Renamed, SurvivingAliases;
    match r
    case AccountRecord(a) =>
      forall k | 0 <= k < |a.aliases|
        ensures a.aliases[k].domain in v.domains
      {
        assert a.aliases[k] in SurvivingAliases(BadDomains(t, b.domains), b.accounts[c].aliases);
      }
    case _ =>
  }

  lemma KeptKeys(t: Texts, b: Tables, v: Tables)
    requires Validated(t, b, v)
    ensures v.tenants == b.tenants && v.certificates == b.certificates
    ensures v.domains.Keys <= b.domains.Keys && v.accounts.Keys <= b.accounts.Keys
    ensures v.lists.Keys <= b.lists.Keys && v.signatures.Keys <= b.signatures.Keys
  {
    hide BadDomains, AccountSurvives, Renamed, SurvivingAliases;
  }

  lemma ValidationKeepsApart(t: Texts, b: Tables, v: Tables)
    requires Apart(b) && Validated(t, b, v)
    ensures Apart(v)
  {
    hide Validated;
    KeptKeys(t, b, v);
  }

  /** References in the tables are references known to the collections. */
  lemma LinkedIsKnown(b: Tables, r: Record)
    requires LinkedRecord(b, r)
    ensures ReferencesKnown(CollectionsOf(b), r)
  {
    hide CollectionsOf, HasTenant, HasDomain;
    forall cid
      ensures (HasTenant(CollectionsOf(b), cid) <==> cid in b.tenants)
      ensures (HasDomain(CollectionsOf(b), cid) <==> cid in b.domains)
    {
      HasExactly(b, cid);
    }
  }

  // ----- The export ---------------------------------------------------------------------------

  /** Every reference of every exported record, mailing-list aliases excepted, is created by an earlier operation. */
  lemma ExportKeepsOrder(t: Texts, b: Tables, v: Tables, ops: seq<Op>, i: int, c: Cid, r: Record)
    requires AllLinked(b) && Validated(t, b, v)
    requires Conserves(CollectionsOf(v), ops) && Staged(ops) && Holds(ops, i, c, r)
    ensures ReferencesBefore(ops, i, r)
  {
    hide AllLinked, Validated, CollectionsOf, Conserves, Staged, Holds, HasRecord, LinkedRecord, IsIn;
    ExportedIsIn(v, ops, i, c, r);
    ValidationKeepsLinks(t, b, v, c, r);
    LinkedIsKnown(v, r);
    ReferencesInTime(CollectionsOf(v), ops, i, c, r);
  }

  lemma ExportedIsIn(v: Tables, ops: seq<Op>, i: int, c: Cid, r: Record)
    requires Conserves(CollectionsOf(v), ops) && Holds(ops, i, c, r)
    ensures IsIn(v, c, r)
  {
    hide CollectionsOf, HasRecord, IsIn, Holds;
    CollectionsHold(v, c, r);
  }

  /** No client id is created twice. */
  lemma ExportIsUnique(v: Tables, ops: seq<Op>, i: int, j: int, c: Cid, r: Record, r': Record)
    requires Apart(v) && Conserves(CollectionsOf(v), ops) && Staged(ops)
    requires Holds(ops, i, c, r) && Holds(ops, j, c, r')
    ensures i == j && r == r'
  {
    hide CollectionsOf, Conserves;
    ExportedIsIn(v, ops, i, c, r);
    ExportedIsIn(v, ops, j, c, r');
  }

  /**
   The aliases of mailing lists are not validated: the reference of one is created in time exactly if its domain
   has an acceptable name.
   */
  lemma ListAliasExactly(t: Texts, b: Tables, v: Tables, ops: seq<Op>, i: int, c: Cid, l: MailingList, a: Alias)
    requires AllLinked(b) && Validated(t, b, v)
    requires Conserves(CollectionsOf(v), ops) && Staged(ops) && Holds(ops, i, c, ListRecord(l)) && a in l.aliases
    ensures a.domain in b.domains
    ensures DomainBefore(ops, i, a.domain) <==> t.isDomainName(b.domains[a.domain].name)
  {
    hide CollectionsOf, Conserves, Staged, Holds, HasDomain, DomainBefore, AccountsValidated;
    ExportedIsIn(v, ops, i, c, ListRecord(l));
    DomainComesBefore(CollectionsOf(v), ops, i, c, ListRecord(l), a.domain);
    HasExactly(v, a.domain);
  }

  /** By the end a domain is created exactly if it has an acceptable name. */
  lemma DomainExactly(t: Texts, b: Tables, v: Tables, ops: seq<Op>, domain: Cid)
    requires Validated(t, b, v) && Conserves(CollectionsOf(v), ops)
    ensures domain in b.domains ==> (DomainBefore(ops, |ops|, domain) <==> t.isDomainName(b.domains[domain].name))
  {
    hide CollectionsOf, AccountsValidated;
    HasExactly(v, domain);
    if DomainBefore(ops, |ops|, domain) {
      var j, r :| j < |ops| && Holds(ops, j, domain, r) && r.DomainRecord?;
      assert HasRecord(CollectionsOf(v), domain, r);
    }
    if HasDomain(CollectionsOf(v), domain) {
      var r :| HasRecord(CollectionsOf(v), domain, r) && r.DomainRecord?;
      var j :| Holds(ops, j, domain, r);
    }
  }
}
