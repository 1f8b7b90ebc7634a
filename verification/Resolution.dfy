/**
 * The bookkeeping of one resolution, on what it looks at in each attachment: whether its
 * principal matches the caller, a role's alias and full text, and the diagnostic identity.
 */
module Screening {
  import opened Wrappers

  datatype Candidate = Candidate(matching: bool, role: bool, alias: string, original: string, diagnosticId: string)
  datatype Fault = BadIdentity | Inconsistent | LookupMismatch | AmbiguousRole | DuplicateAttachment | PolicyNotFound

  /** Two role attachments a session cannot tell apart. */
  predicate Ambiguous(b: Candidate, c: Candidate) {
    b.role && c.role && b.alias == c.alias && b.original != c.original
  }

  /** The candidates at i (and j) are what a refusal is about. */
  predicate FaultAt(fault: Fault, cs: seq<Candidate>, i: int, j: int) {
    match fault
    case LookupMismatch => 0 <= i < |cs| && !cs[i].matching
    case AmbiguousRole => 0 <= i < j < |cs| && Ambiguous(cs[i], cs[j])
    case DuplicateAttachment => 0 <= i < j < |cs| && cs[i].diagnosticId == cs[j].diagnosticId
    case _ => false
  }

  ghost predicate Shows(fault: Fault, cs: seq<Candidate>) {
    exists i, j :: FaultAt(fault, cs, i, j)
  }

  ghost predicate Clean(cs: seq<Candidate>) {
    !Shows(LookupMismatch, cs) && !Shows(AmbiguousRole, cs) && !Shows(DuplicateAttachment, cs)
  }

  ghost predicate HoldsAlias(cs: seq<Candidate>, i: int, alias: string, original: string) {
    0 <= i < |cs| && cs[i].role && cs[i].alias == alias && cs[i].original == original
  }

  predicate Booked(cs: seq<Candidate>, i: int, aliases: map<string, string>) {
    0 <= i < |cs| && cs[i].role ==> cs[i].alias in aliases && aliases[cs[i].alias] == cs[i].original
  }

  ghost predicate AliasBook(cs: seq<Candidate>, aliases: map<string, string>) {
    && (forall i :: Booked(cs, i, aliases))
    && (forall a :: a in aliases ==> exists i :: HoldsAlias(cs, i, a, aliases[a]))
  }

  ghost predicate HoldsId(cs: seq<Candidate>, i: int, id: string) {
    0 <= i < |cs| && cs[i].diagnosticId == id
  }

  ghost predicate IdBook(cs: seq<Candidate>, ids: set<string>) {
    && (forall i, d :: HoldsId(cs, i, d) ==> d in ids)
    && (forall d :: d in ids ==> exists i :: HoldsId(cs, i, d))
  }

  /** aliases and ids are the books kept over cs. */
  ghost predicate Books(cs: seq<Candidate>, aliases: map<string, string>, ids: set<string>) {
    AliasBook(cs, aliases) && IdBook(cs, ids)
  }

  lemma ShowsGrows(fault: Fault, cs: seq<Candidate>, more: seq<Candidate>)
    requires Shows(fault, cs)
    ensures Shows(fault, cs + more)
  {
    var i, j :| FaultAt(fault, cs, i, j);
    assert FaultAt(fault, cs + more, i, j);
  }

  lemma CleanAfter(cs: seq<Candidate>, c: Candidate, aliases: map<string, string>, ids: set<string>)
    requires Clean(cs) && Books(cs, aliases, ids) && c.matching
    requires c.role && c.alias in aliases ==> aliases[c.alias] == c.original
    requires c.diagnosticId !in ids
    ensures Clean(cs + [c])
  {
    forall fault, i, j | fault in {LookupMismatch, AmbiguousRole, DuplicateAttachment} ensures !FaultAt(fault, cs + [c], i, j) {
      assert !FaultAt(fault, cs, i, j);
      assert Booked(cs, i, aliases);
      assert 0 <= i < |cs| ==> HoldsId(cs, i, cs[i].diagnosticId);
    }
  }

  function AliasesWith(aliases: map<string, string>, c: Candidate): map<string, string> {
    if c.role then aliases[c.alias := c.original] else aliases
  }

  lemma AliasBookAfter(cs: seq<Candidate>, c: Candidate, aliases: map<string, string>)
    requires AliasBook(cs, aliases)
    requires c.role && c.alias in aliases ==> aliases[c.alias] == c.original
    ensures AliasBook(cs + [c], AliasesWith(aliases, c))
  {
    var all, after := cs + [c], AliasesWith(aliases, c);
    forall i ensures Booked(all, i, after) {
      assert Booked(cs, i, aliases);
    }
    forall a | a in after ensures exists i :: HoldsAlias(all, i, a, after[a]) {
      if a in aliases {
        var i :| HoldsAlias(cs, i, a, aliases[a]);
        assert HoldsAlias(all, i, a, after[a]);
      } else {
        assert HoldsAlias(all, |cs|, a, after[a]);
      }
    }
  }

  lemma IdBookAfter(cs: seq<Candidate>, c: Candidate, ids: set<string>)
    requires IdBook(cs, ids)
    ensures IdBook(cs + [c], ids + {c.diagnosticId})
  {
    forall i, d | HoldsId(cs + [c], i, d) ensures d in ids + {c.diagnosticId} {
      assert i < |cs| ==> HoldsId(cs, i, d);
    }
    forall d | d in ids + {c.diagnosticId} ensures exists i :: HoldsId(cs + [c], i, d) {
      if d in ids {
        var i :| HoldsId(cs, i, d);
        assert HoldsId(cs + [c], i, d);
      } else {
        assert HoldsId(cs + [c], |cs|, d);
      }
    }
  }

  /** One attachment: the checks of the innermost loop, in order. */
  method AddOne(ghost cs: seq<Candidate>, c: Candidate, aliases: map<string, string>, ids: set<string>)
    returns (fault: Option<Fault>, newAliases: map<string, string>, newIds: set<string>)
    requires Clean(cs) && Books(cs, aliases, ids)
    ensures fault.Some? ==> Shows(fault.value, cs + [c])
    ensures fault.None? ==> Clean(cs + [c]) && Books(cs + [c], newAliases, newIds)
  {
    newAliases, newIds := aliases, ids;
    ghost var n, all := |cs|, cs + [c];
    if !c.matching {
      assert FaultAt(LookupMismatch, all, n, n);
      return Some(LookupMismatch), newAliases, newIds;
    }
    if c.role {
      if c.alias in aliases && aliases[c.alias] != c.original {
        ghost var i :| HoldsAlias(cs, i, c.alias, aliases[c.alias]);
        assert FaultAt(AmbiguousRole, all, i, n);
        return Some(AmbiguousRole), newAliases, newIds;
      }
      newAliases := aliases[c.alias := c.original];
    }
    if c.diagnosticId in ids {
      ghost var i :| HoldsId(cs, i, c.diagnosticId);
      assert FaultAt(DuplicateAttachment, all, i, n);
      return Some(DuplicateAttachment), newAliases, newIds;
    }
    newIds := ids + {c.diagnosticId};
    CleanAfter(cs, c, aliases, ids);
    AliasBookAfter(cs, c, aliases);
    IdBookAfter(cs, c, ids);
    return None, newAliases, newIds;
  }

  /** The attachments of one lookup, after those already accepted. */
  method AddPart(ghost cs: seq<Candidate>, part: seq<Candidate>, aliases: map<string, string>, ids: set<string>)
    returns (fault: Option<Fault>, newAliases: map<string, string>, newIds: set<string>)
    requires Clean(cs) && Books(cs, aliases, ids)
    ensures fault.Some? ==> Shows(fault.value, cs + part)
    ensures fault.None? ==> Clean(cs + part) && Books(cs + part, newAliases, newIds)
  {
    newAliases, newIds := aliases, ids;
    ghost var all := cs;
    for i := 0 to |part|
      invariant all == cs + part[..i]
      invariant Clean(all) && Books(all, newAliases, newIds)
    {
      fault, newAliases, newIds := AddOne(all, part[i], newAliases, newIds);
      all := all + [part[i]];
      if fault.Some? {
        ShowsGrows(fault.value, all, part[i + 1..]);
        assert cs + part == all + part[i + 1..];
        return;
      }
    }
    assert all == cs + part;
    fault := None;
  }
}

/** Resolving a caller's grants: principal lookups, their checks, and the referenced policies. */
module Resolution {
  import opened Wrappers
  import opened Principals
  import opened Attachments
  import opened Screening

  datatype Identity = Identity(caller: Principal, account: string, allowlisted: bool)
  datatype Grant = Grant(attachment: StoredAttachment, policy: StoredPolicy)
  datatype Resolved = Resolved(grants: seq<Grant>) | Refused(fault: Fault)
  datatype Item = Item(key: ItemKey, record: StoredAttachment)

  /** The pages of a strongly consistent query, put together: every item under pk, once. */
  ghost predicate Lists(items: seq<Item>, t: Table, pk: string) {
    && (forall i :: 0 <= i < |items| ==>
          items[i].key.0 == pk && items[i].key in t && t[items[i].key] == items[i].record)
    && (forall i, j :: 0 <= i < j < |items| ==> items[i].key != items[j].key)
    && (forall k :: k in t && k.0 == pk ==> Item(k, t[k]) in items)
  }

  type Query = (AttachmentScope, string) -> seq<Item>

  ghost predicate Answers(query: Query, db: Db) {
    forall scope, pk :: Lists(query(scope, pk), AttachmentTable(db, scope), pk)
  }

  /** The validation readBindings makes of each item. */
  predicate ReadOk(cfg: Config, scope: AttachmentScope, pk: string, item: Item) {
    && item.record.scope == scope && CheckAttachment(cfg, item.record)
    && item.key == (pk, AttachmentSortKey(item.record.id))
    && (pk == AccountKey(cfg.account) || pk == PrincipalKey(item.record.principal))
  }

  function Records(items: seq<Item>): (r: seq<StoredAttachment>)
    ensures |r| == |items|
    ensures forall i :: 0 <= i < |items| ==> r[i] == items[i].record
  {
    if items == [] then [] else [items[0].record] + Records(items[1..])
  }

  predicate AllReadOk(cfg: Config, scope: AttachmentScope, pk: string, items: seq<Item>) {
    forall i :: 0 <= i < |items| ==> ReadOk(cfg, scope, pk, items[i])
  }

  /** All records in order, unless one item fails the check. */
  method CheckedRecords(items: seq<Item>, ok: Item -> bool) returns (r: Option<seq<StoredAttachment>>)
    ensures r.Some? <==> forall i :: 0 <= i < |items| ==> ok(items[i])
    ensures r.Some? ==> r.value == Records(items)
  {
    var bindings: seq<StoredAttachment> := [];
    for i := 0 to |items|
      invariant forall j :: 0 <= j < i ==> ok(items[j])
      invariant |bindings| == i && forall j :: 0 <= j < i ==> bindings[j] == items[j].record
    {
      if !ok(items[i]) {
        return None;
      }
      bindings := bindings + [items[i].record];
    }
    return Some(bindings);
  }

  method ReadBindings(cfg: Config, query: Query, scope: AttachmentScope, pk: string) returns (r: Option<seq<StoredAttachment>>)
    ensures r.Some? <==> AllReadOk(cfg, scope, pk, query(scope, pk))
    ensures r.Some? ==> r.value == Records(query(scope, pk))
  {
    r := CheckedRecords(query(scope, pk), (item: Item) => ReadOk(cfg, scope, pk, item));
  }

  function DiagnosticId(b: StoredAttachment): string {
    (if b.scope == GlobalScope then "global" else "regional") + "/" + b.region + "/" + b.id
  }

  function CandidateOf(caller: Principal, b: StoredAttachment): Candidate {
    Candidate(MatchesPrincipal(b.principal, caller), b.principal.Role?, RoleAlias(b.principal),
              Original(b.principal), DiagnosticId(b))
  }

  function Map<A, B>(f: A -> B, s: seq<A>): (r: seq<B>)
    ensures |r| == |s| && forall i :: 0 <= i < |s| ==> r[i] == f(s[i])
  {
    seq(|s|, i requires 0 <= i < |s| => f(s[i]))
  }

  lemma MapAppend<A, B>(f: A -> B, s: seq<A>, t: seq<A>)
    ensures Map(f, s + t) == Map(f, s) + Map(f, t)
  {
  }

  function Candidates(caller: Principal, bs: seq<StoredAttachment>): seq<Candidate> {
    Map((b: StoredAttachment) => CandidateOf(caller, b), bs)
  }

  lemma CandidatesAppend(caller: Principal, bs: seq<StoredAttachment>, part: seq<StoredAttachment>)
    ensures Candidates(caller, bs + part) == Candidates(caller, bs) + Candidates(caller, part)
  {
    MapAppend((b: StoredAttachment) => CandidateOf(caller, b), bs, part);
  }

  /** The lookups of a resolution, in order. */
  function ScopeLookups(scope: AttachmentScope, keys: seq<string>): seq<(AttachmentScope, string)> {
    seq(|keys|, i requires 0 <= i < |keys| => (scope, keys[i]))
  }

  function Lookups(scopes: seq<AttachmentScope>, keys: seq<string>): seq<(AttachmentScope, string)> {
    if scopes == [] then []
    else Lookups(scopes[..|scopes| - 1], keys) + ScopeLookups(scopes[|scopes| - 1], keys)
  }

  /** Everything the lookups return, in order. */
  function Found(query: Query, lookups: seq<(AttachmentScope, string)>): seq<StoredAttachment> {
    if lookups == [] then []
    else
      var last := lookups[|lookups| - 1];
      Found(query, lookups[..|lookups| - 1]) + Records(query(last.0, last.1))
  }

  predicate IdentityOk(cfg: Config, id: Identity) {
    && PrincipalOk(id.caller) && !id.caller.Role? && id.caller.account == id.account
    && id.caller.account == cfg.account && !id.allowlisted
  }

  predicate DecodesPolicy(cfg: Config, key: ItemKey, p: StoredPolicy) {
    IdOk(p.id) && p.owner == PolicyOwner(cfg.account, p.kind) && key == PolicyKey(cfg.account, PolicyRef(p.id, p.kind))
  }

  /** A policy read under a reference's key is that reference's policy. */
  lemma DecodedIsReferenced(cfg: Config, ref: PolicyRef, p: StoredPolicy)
    requires AccountOk(cfg.account) && DecodesPolicy(cfg, PolicyKey(cfg.account, ref), p)
    ensures PolicyRef(p.id, p.kind) == ref
  {
    Cancel("POLICY#", ref.id, "POLICY#", p.id);
    AccountKeyIsInjective(PolicyOwner(cfg.account, ref.kind), PolicyOwner(cfg.account, p.kind));
  }

  lemma StoredPolicyDecodes(cfg: Config, ref: PolicyRef, p: StoredPolicy)
    requires AccountOk(cfg.account) && PolicyOk(PolicyKey(cfg.account, ref), p)
    ensures DecodesPolicy(cfg, PolicyKey(cfg.account, ref), p)
  {
    AccountKeyIsInjective(PolicyOwner(cfg.account, ref.kind), p.owner);
  }

  predicate PolicyStored(db: Db, cfg: Config, ref: PolicyRef) {
    PolicyKey(cfg.account, ref) in db.policies
  }

  predicate PolicyReadable(db: Db, cfg: Config, ref: PolicyRef) {
    var k := PolicyKey(cfg.account, ref);
    k in db.policies ==> DecodesPolicy(cfg, k, db.policies[k])
  }

  predicate Maps(db: Db, cfg: Config, policies: map<PolicyRef, StoredPolicy>, refs: seq<PolicyRef>) {
    && (forall ref :: ref in policies ==>
          ref in refs && PolicyStored(db, cfg, ref) && policies[ref] == db.policies[PolicyKey(cfg.account, ref)])
    && (forall ref :: ref in refs && PolicyStored(db, cfg, ref) ==> ref in policies)
  }

  predicate AllReadable(db: Db, cfg: Config, refs: seq<PolicyRef>) {
    forall ref :: ref in refs ==> PolicyReadable(db, cfg, ref)
  }

  /** The distinct references of the bindings, in order of first use. */
  method DistinctRefs(bs: seq<StoredAttachment>) returns (refs: seq<PolicyRef>)
    ensures forall ref :: ref in refs <==> exists i :: 0 <= i < |bs| && bs[i].policy == ref
    ensures forall i, j :: 0 <= i < j < |refs| ==> refs[i] != refs[j]
  {
    refs := [];
    var seen: set<PolicyRef> := {};
    for i := 0 to |bs|
      invariant forall ref :: ref in seen <==> ref in refs
      invariant forall j :: 0 <= j < i ==> bs[j].policy in refs
      invariant forall ref :: ref in refs ==> exists j :: 0 <= j < i && bs[j].policy == ref
      invariant forall j, k :: 0 <= j < k < |refs| ==> refs[j] != refs[k]
    {
      if bs[i].policy !in seen {
        refs := refs + [bs[i].policy];
        seen := seen + {bs[i].policy};
      }
    }
  }

  /** One key of a batch. */
  method LoadOne(db: Db, cfg: Config, refs: seq<PolicyRef>, i: nat, policies: map<PolicyRef, StoredPolicy>)
    returns (r: Option<map<PolicyRef, StoredPolicy>>)
    requires AccountOk(cfg.account) && i < |refs| && Maps(db, cfg, policies, refs[..i]) && AllReadable(db, cfg, refs[..i])
    ensures r.None? ==> !PolicyReadable(db, cfg, refs[i])
    ensures r.Some? ==> Maps(db, cfg, r.value, refs[..i + 1]) && AllReadable(db, cfg, refs[..i + 1])
  {
    var k := PolicyKey(cfg.account, refs[i]);
    assert refs[..i + 1] == refs[..i] + [refs[i]];
    if k !in db.policies { return Some(policies); }
    var policy := db.policies[k];
    if !DecodesPolicy(cfg, k, policy) { return None; }
    DecodedIsReferenced(cfg, refs[i], policy);
    return Some(policies[PolicyRef(policy.id, policy.kind) := policy]);
  }

  /** The referenced policies, read in batches of one hundred keys. */
  method LoadPolicies(db: Db, cfg: Config, bs: seq<StoredAttachment>) returns (r: Option<map<PolicyRef, StoredPolicy>>)
    requires AccountOk(cfg.account)
    ensures r.None? ==> exists i :: 0 <= i < |bs| && !PolicyReadable(db, cfg, bs[i].policy)
    ensures r.Some? ==> forall i :: 0 <= i < |bs| ==> PolicyReadable(db, cfg, bs[i].policy)
    ensures r.Some? ==> forall i :: 0 <= i < |bs| ==>
      (bs[i].policy in r.value <==> PolicyStored(db, cfg, bs[i].policy))
    ensures r.Some? ==> forall ref :: ref in r.value ==>
      PolicyStored(db, cfg, ref) && r.value[ref] == db.policies[PolicyKey(cfg.account, ref)]
  {
    var refs := DistinctRefs(bs);
    var policies: map<PolicyRef, StoredPolicy> := map[];
    var offset := 0;
    while offset < |refs|
      invariant 0 <= offset <= |refs|
      invariant Maps(db, cfg, policies, refs[..offset]) && AllReadable(db, cfg, refs[..offset])
    {
      var end := if offset + 100 < |refs| then offset + 100 else |refs|;
      while offset < end
        invariant offset <= end <= |refs|
        invariant Maps(db, cfg, policies, refs[..offset]) && AllReadable(db, cfg, refs[..offset])
      {
        var next := LoadOne(db, cfg, refs, offset, policies);
        if next.None? {
          assert refs[offset] in refs;
          return None;
        }
        policies := next.value;
        offset := offset + 1;
      }
    }
    assert refs[..|refs|] == refs;
    return Some(policies);
  }

  /** A lookup returned items that fail validation. */
  ghost predicate Unreadable(cfg: Config, query: Query, lookups: seq<(AttachmentScope, string)>) {
    exists i :: 0 <= i < |lookups| && !AllReadOk(cfg, lookups[i].0, lookups[i].1, query(lookups[i].0, lookups[i].1))
  }

  /** Unreadable items, or a reference to an ill-formed policy. */
  ghost predicate Corrupt(db: Db, cfg: Config, query: Query, lookups: seq<(AttachmentScope, string)>) {
    || Unreadable(cfg, query, lookups)
    || (exists i :: 0 <= i < |Found(query, lookups)| && !PolicyReadable(db, cfg, Found(query, lookups)[i].policy))
  }

  predicate GrantOk(db: Db, cfg: Config, g: Grant, b: StoredAttachment) {
    && g.attachment == b && PolicyStored(db, cfg, b.policy)
    && g.policy == db.policies[PolicyKey(cfg.account, b.policy)]
  }

  /** What a result says about everything the lookups returned. */
  ghost predicate Outcome(db: Db, cfg: Config, caller: Principal, query: Query, lookups: seq<(AttachmentScope, string)>, r: Resolved) {
    var bs := Found(query, lookups);
    match r
    case Resolved(grants) =>
      && !Corrupt(db, cfg, query, lookups) && Clean(Candidates(caller, bs)) && |grants| == |bs|
      && forall i :: 0 <= i < |bs| ==> GrantOk(db, cfg, grants[i], bs[i])
    case Refused(BadIdentity) => false
    case Refused(Inconsistent) => Corrupt(db, cfg, query, lookups)
    case Refused(PolicyNotFound) =>
      Clean(Candidates(caller, bs)) && exists i :: 0 <= i < |bs| && !PolicyStored(db, cfg, bs[i].policy)
    case Refused(fault) => Shows(fault, Candidates(caller, bs))
  }

  lemma {:induction false} FoundAppend(query: Query, a: seq<(AttachmentScope, string)>, b: seq<(AttachmentScope, string)>)
    ensures Found(query, a + b) == Found(query, a) + Found(query, b)
    decreases |b|
  {
    if b == [] {
      assert a + b == a;
    } else {
      var front, last := b[..|b| - 1], b[|b| - 1];
      assert (a + b)[..|a + b| - 1] == a + front && (a + b)[|a + b| - 1] == last;
      FoundAppend(query, a, front);
      var found, more, records := Found(query, a), Found(query, front), Records(query(last.0, last.1));
      assert (found + more) + records == found + (more + records);
    }
  }

  lemma {:induction false} LookupsSplit(scopes: seq<AttachmentScope>, keys: seq<string>, i: nat)
    requires i < |scopes|
    ensures Lookups(scopes[..i + 1], keys) == Lookups(scopes[..i], keys) + ScopeLookups(scopes[i], keys)
  {
    assert scopes[..i + 1][..i] == scopes[..i];
  }

  lemma {:induction false} LookupsPrefix(scopes: seq<AttachmentScope>, keys: seq<string>, i: nat)
    requires i <= |scopes|
    ensures Lookups(scopes[..i], keys) <= Lookups(scopes, keys)
    decreases |scopes| - i
  {
    if i == |scopes| {
      assert scopes[..i] == scopes;
    } else {
      LookupsSplit(scopes, keys, i);
      LookupsPrefix(scopes, keys, i + 1);
    }
  }

  /** A fault among the first lookups is a fault of all of them. */
  lemma FaultStays(caller: Principal, query: Query, done: seq<(AttachmentScope, string)>,
                   lookups: seq<(AttachmentScope, string)>, fault: Fault)
    requires done <= lookups && Shows(fault, Candidates(caller, Found(query, done)))
    ensures Shows(fault, Candidates(caller, Found(query, lookups)))
  {
    var rest := lookups[|done|..];
    assert lookups == done + rest;
    FoundAppend(query, done, rest);
    CandidatesAppend(caller, Found(query, done), Found(query, rest));
    ShowsGrows(fault, Candidates(caller, Found(query, done)), Candidates(caller, Found(query, rest)));
  }

  /** The loop state after some of the lookups. */
  ghost predicate Kept(cfg: Config, caller: Principal, query: Query, done: seq<(AttachmentScope, string)>,
                       bindings: seq<StoredAttachment>, aliases: map<string, string>, ids: set<string>) {
    && bindings == Found(query, done) && !Unreadable(cfg, query, done)
    && Clean(Candidates(caller, bindings)) && Books(Candidates(caller, bindings), aliases, ids)
  }

  /** What a refusal by the loops means for all lookups. */
  ghost predicate Justified(cfg: Config, caller: Principal, query: Query, lookups: seq<(AttachmentScope, string)>, fault: Fault) {
    if fault == Inconsistent then Unreadable(cfg, query, lookups) else Shows(fault, Candidates(caller, Found(query, lookups)))
  }

  /** One lookup. */
  method CollectOne(cfg: Config, caller: Principal, query: Query, scope: AttachmentScope, pk: string,
                    ghost done: seq<(AttachmentScope, string)>, ghost lookups: seq<(AttachmentScope, string)>,
                    bindings: seq<StoredAttachment>, aliases: map<string, string>, ids: set<string>)
    returns (fault: Option<Fault>, all: seq<StoredAttachment>, newAliases: map<string, string>, newIds: set<string>)
    requires done + [(scope, pk)] <= lookups && Kept(cfg, caller, query, done, bindings, aliases, ids)
    ensures fault.Some? ==> Justified(cfg, caller, query, lookups, fault.value)
    ensures fault.None? ==> Kept(cfg, caller, query, done + [(scope, pk)], all, newAliases, newIds)
  {
    ghost var next := done + [(scope, pk)];
    assert next[..|done|] == done && next[|done|] == lookups[|done|];
    var part := ReadBindings(cfg, query, scope, pk);
    if part.None? {
      return Some(Inconsistent), bindings, aliases, ids;
    }
    CandidatesAppend(caller, bindings, part.value);
    fault, newAliases, newIds := AddPart(Candidates(caller, bindings), Candidates(caller, part.value), aliases, ids);
    all := bindings + part.value;
    if fault.Some? {
      FaultStays(caller, query, next, lookups, fault.value);
    }
  }

  /** The lookups of one scope. */
  method CollectScope(cfg: Config, caller: Principal, query: Query, scope: AttachmentScope, keys: seq<string>,
                      ghost done: seq<(AttachmentScope, string)>, ghost lookups: seq<(AttachmentScope, string)>,
                      bindings: seq<StoredAttachment>, aliases: map<string, string>, ids: set<string>)
    returns (fault: Option<Fault>, all: seq<StoredAttachment>, newAliases: map<string, string>, newIds: set<string>)
    requires done + ScopeLookups(scope, keys) <= lookups && Kept(cfg, caller, query, done, bindings, aliases, ids)
    ensures fault.Some? ==> Justified(cfg, caller, query, lookups, fault.value)
    ensures fault.None? ==> Kept(cfg, caller, query, done + ScopeLookups(scope, keys), all, newAliases, newIds)
  {
    all, newAliases, newIds := bindings, aliases, ids;
    ghost var now, mine := done, ScopeLookups(scope, keys);
    for j := 0 to |keys|
      invariant now == done + mine[..j]
      invariant Kept(cfg, caller, query, now, all, newAliases, newIds)
    {
      NextIsPrefix(done, mine, j, lookups);
      fault, all, newAliases, newIds := CollectOne(cfg, caller, query, scope, keys[j], now, lookups, all, newAliases, newIds);
      if fault.Some? {
        return;
      }
      now := now + [mine[j]];
    }
    assert mine[..|keys|] == mine;
    fault := None;
  }

  lemma NextIsPrefix<T>(done: seq<T>, mine: seq<T>, j: nat, all: seq<T>)
    requires j < |mine| && done + mine <= all
    ensures (done + mine[..j]) + [mine[j]] == done + mine[..j + 1]
    ensures (done + mine[..j]) + [mine[j]] <= all
  {
    assert done + mine == (done + mine[..j + 1]) + mine[j + 1..];
  }

  /** All lookups. */
  method Collect(cfg: Config, caller: Principal, query: Query, scopes: seq<AttachmentScope>, keys: seq<string>)
    returns (fault: Option<Fault>, bindings: seq<StoredAttachment>)
    ensures fault.None? ==> bindings == Found(query, Lookups(scopes, keys)) && Clean(Candidates(caller, bindings))
    ensures fault.None? ==> !Unreadable(cfg, query, Lookups(scopes, keys))
    ensures fault.Some? ==> Justified(cfg, caller, query, Lookups(scopes, keys), fault.value)
  {
    bindings := [];
    var aliases: map<string, string> := map[];
    var ids: set<string> := {};
    ghost var done: seq<(AttachmentScope, string)> := [];
    for i := 0 to |scopes|
      invariant done == Lookups(scopes[..i], keys)
      invariant Kept(cfg, caller, query, done, bindings, aliases, ids)
    {
      LookupsSplit(scopes, keys, i);
      LookupsPrefix(scopes, keys, i + 1);
      fault, bindings, aliases, ids :=
        CollectScope(cfg, caller, query, scopes[i], keys, done, Lookups(scopes, keys), bindings, aliases, ids);
      if fault.Some? {
        return;
      }
      done := done + ScopeLookups(scopes[i], keys);
    }
    assert scopes[..|scopes|] == scopes;
    fault := None;
  }

  /** Pairing the bindings with their policies. */
  method WithPolicies(db: Db, cfg: Config, bindings: seq<StoredAttachment>) returns (r: Resolved)
    requires AccountOk(cfg.account)
    ensures match r
      case Resolved(grants) =>
        && (forall i :: 0 <= i < |bindings| ==> PolicyReadable(db, cfg, bindings[i].policy))
        && |grants| == |bindings| && forall i :: 0 <= i < |bindings| ==> GrantOk(db, cfg, grants[i], bindings[i])
      case Refused(Inconsistent) => exists i :: 0 <= i < |bindings| && !PolicyReadable(db, cfg, bindings[i].policy)
      case Refused(PolicyNotFound) => exists i :: 0 <= i < |bindings| && !PolicyStored(db, cfg, bindings[i].policy)
      case _ => false
  {
    var policies := LoadPolicies(db, cfg, bindings);
    if policies.None? {
      return Refused(Inconsistent);
    }
    var grants: seq<Grant> := [];
    for i := 0 to |bindings|
      invariant |grants| == i && forall j :: 0 <= j < i ==> GrantOk(db, cfg, grants[j], bindings[j])
    {
      if bindings[i].policy !in policies.value {
        return Refused(PolicyNotFound);
      }
      grants := grants + [Grant(bindings[i], policies.value[bindings[i].policy])];
    }
    return Resolved(grants);
  }

  /** resolveScopes: the grants of a caller, or a refusal with nothing granted. */
  method ResolveScopes(db: Db, cfg: Config, id: Identity, query: Query, scopes: seq<AttachmentScope>) returns (r: Resolved)
    requires AccountOk(cfg.account)
    ensures r == Refused(BadIdentity) <==> !IdentityOk(cfg, id)
    ensures IdentityOk(cfg, id) ==> Outcome(db, cfg, id.caller, query, Lookups(scopes, LookupKeys(id.caller)), r)
  {
    if !IdentityOk(cfg, id) {
      return Refused(BadIdentity);
    }
    var keys := LookupKeys(id.caller);
    var fault, bindings := Collect(cfg, id.caller, query, scopes, keys);
    if fault.Some? {
      return Refused(fault.value);
    }
    r := WithPolicies(db, cfg, bindings);
  }

  /** What holds of every grant that is handed out. */
  predicate SoundGrant(cfg: Config, caller: Principal, scopes: seq<AttachmentScope>, g: Grant) {
    var b := g.attachment;
    && b.scope in scopes && b.owner == cfg.account && b.principal.account == cfg.account
    && b.region == (if b.scope == RegionalScope then cfg.region else "")
    && MatchesPrincipal(b.principal, caller)
    && g.policy.id == b.policy.id && g.policy.kind == b.policy.kind
    && g.policy.owner == (if b.policy.kind == CustomPolicy then cfg.account else "MANAGED")
  }

  /**
   * Resolution fails closed: whatever the tables hold and the queries answer, reachable
   * or not, a success hands out only grants of the store's account that match the
   * caller, in a requested scope and this region, each with the policy it refers to.
   */
  lemma ResolvedIsSound(db: Db, cfg: Config, caller: Principal, query: Query, scopes: seq<AttachmentScope>, grants: seq<Grant>, i: nat)
    requires AccountOk(cfg.account) && i < |grants|
    requires Outcome(db, cfg, caller, query, Lookups(scopes, LookupKeys(caller)), Resolved(grants))
    ensures SoundGrant(cfg, caller, scopes, grants[i])
  {
    var lookups := Lookups(scopes, LookupKeys(caller));
    var bs := Found(query, lookups);
    var l, j := FoundIn(query, lookups, i);
    assert AllReadOk(cfg, lookups[l].0, lookups[l].1, query(lookups[l].0, lookups[l].1));
    assert ReadOk(cfg, lookups[l].0, lookups[l].1, query(lookups[l].0, lookups[l].1)[j]);
    LookupScope(scopes, LookupKeys(caller), l);
    assert !FaultAt(LookupMismatch, Candidates(caller, bs), i, i);
    assert Candidates(caller, bs)[i] == CandidateOf(caller, bs[i]);
    assert GrantOk(db, cfg, grants[i], bs[i]) && PolicyReadable(db, cfg, bs[i].policy);
    DecodedIsReferenced(cfg, bs[i].policy, grants[i].policy);
  }

  /** Which lookup, and which of its items, the i-th record found is. */
  lemma {:induction false} FoundIn(query: Query, lookups: seq<(AttachmentScope, string)>, i: nat) returns (l: nat, j: nat)
    requires i < |Found(query, lookups)|
    ensures l < |lookups| && j < |query(lookups[l].0, lookups[l].1)|
    ensures Found(query, lookups)[i] == query(lookups[l].0, lookups[l].1)[j].record
    decreases |lookups|
  {
    var n := |lookups| - 1;
    var front := Found(query, lookups[..n]);
    if i < |front| {
      l, j := FoundIn(query, lookups[..n], i);
    } else {
      l, j := n, i - |front|;
    }
  }

  lemma {:induction false} LookupScope(scopes: seq<AttachmentScope>, keys: seq<string>, l: nat)
    requires l < |Lookups(scopes, keys)|
    ensures Lookups(scopes, keys)[l].0 in scopes
    decreases |scopes|
  {
    var n := |scopes| - 1;
    var front := Lookups(scopes[..n], keys);
    if l < |front| {
      LookupScope(scopes[..n], keys, l);
      assert front[l].0 in scopes[..n];
    } else {
      assert Lookups(scopes, keys)[l] == ScopeLookups(scopes[n], keys)[l - |front|];
    }
  }
}
