/**
 * The authorization store of one region: policies and attachments, each attachment
 * written twice (under its account and under its principal) in one transaction.
 */
module Attachments {
  import opened Wrappers
  import opened Principals

  const MANAGED_OWNER := "MANAGED"

  datatype AttachmentScope = GlobalScope | RegionalScope
  datatype PolicyKind = CustomPolicy | ManagedPolicy
  datatype PolicyRef = PolicyRef(id: string, kind: PolicyKind)
  datatype StoredPolicy = StoredPolicy(id: string, owner: string, content: string, revision: string, kind: PolicyKind)
  datatype StoredAttachment = StoredAttachment(
    id: string, owner: string, principal: Principal, policy: PolicyRef,
    scope: AttachmentScope, region: string, revision: string)
  datatype Config = Config(account: string, region: string, writerRegion: string)

  /** Partition and sort key. */
  type ItemKey = (string, string)
  type Table = map<ItemKey, StoredAttachment>

  /** minted remembers every attachment record ever written, by its revision. */
  datatype Db = Db(policies: map<ItemKey, StoredPolicy>, global: Table, regional: Table, minted: map<string, StoredAttachment>)

  function AttachmentTable(db: Db, scope: AttachmentScope): Table {
    if scope == GlobalScope then db.global else db.regional
  }

  predicate IdOk(id: string) {
    && 0 < |id| <= 128
    && (forall c :: c in id ==> 'A' <= c <= 'Z' || 'a' <= c <= 'z' || '0' <= c <= '9' || c in "._-")
    && id[0] !in "._-"
  }

  predicate RegionalConfig(cfg: Config) {
    AccountOk(cfg.account) && cfg.region != ""
  }

  function PolicyOwner(account: string, kind: PolicyKind): string {
    if kind == CustomPolicy then account else MANAGED_OWNER
  }

  function PolicyKey(account: string, ref: PolicyRef): ItemKey {
    (AccountKey(PolicyOwner(account, ref.kind)), "POLICY#" + ref.id)
  }

  function AttachmentSortKey(id: string): string { "ATTACHMENT#" + id }

  /** The two keys a record is stored under. */
  function OwnerKey(b: StoredAttachment): ItemKey { (AccountKey(b.owner), AttachmentSortKey(b.id)) }
  function LookupKey(b: StoredAttachment): ItemKey { (PrincipalKey(b.principal), AttachmentSortKey(b.id)) }

  /** What checkAttachment accepts, for the region's stores of any account. */
  predicate AttachmentOk(region: string, b: StoredAttachment) {
    && PrincipalOk(b.principal) && b.principal.account == b.owner
    && IdOk(b.id) && IdOk(b.policy.id)
    && b.region == (if b.scope == GlobalScope then "" else region)
  }

  predicate CheckAttachment(cfg: Config, b: StoredAttachment) {
    AttachmentOk(cfg.region, b) && b.owner == cfg.account
  }

  /** Global records are written only in the account's writer region. */
  predicate MayWrite(cfg: Config, scope: AttachmentScope) {
    scope == GlobalScope ==> cfg.region == cfg.writerRegion
  }

  /** One committed transaction; read is the record a preceding GetAttachment returned. */
  datatype Step =
    | CreateAttachment(account: string, created: StoredAttachment, policyRevision: string)
    | UpdateAttachment(account: string, read: StoredAttachment, policy: PolicyRef, revision: string, policyRevision: string)
    | DeleteAttachment(account: string, read: StoredAttachment)
    | WritePolicy(account: string, id: string, content: string, expected: Option<string>, revision: string)
    | DeletePolicy(account: string, id: string, revision: string)
    | PublishManaged(id: string, content: string, revision: string)

  predicate HasRevision(t: Table, k: ItemKey, revision: string) {
    k in t && t[k].revision == revision
  }

  predicate PolicyAt(db: Db, account: string, ref: PolicyRef, revision: string) {
    var k := PolicyKey(account, ref);
    k in db.policies && db.policies[k].revision == revision
  }

  /** A record some earlier state held. */
  predicate WasRead(db: Db, read: StoredAttachment) {
    read.revision in db.minted && db.minted[read.revision] == read
  }

  /** The conditions of the transaction, and the checks made before it. */
  predicate Enabled(cfg: Config, db: Db, s: Step) {
    match s
    case CreateAttachment(account, b, policyRevision) =>
      && account == cfg.account && MayWrite(cfg, b.scope) && CheckAttachment(cfg, b)
      && OwnerKey(b) !in AttachmentTable(db, b.scope) && LookupKey(b) !in AttachmentTable(db, b.scope)
      && PolicyAt(db, account, b.policy, policyRevision)
      && b.revision !in db.minted
    case UpdateAttachment(account, read, policy, revision, policyRevision) =>
      && account == cfg.account && MayWrite(cfg, read.scope) && WasRead(db, read)
      && CheckAttachment(cfg, read.(policy := policy, revision := revision))
      && HasRevision(AttachmentTable(db, read.scope), OwnerKey(read), read.revision)
      && HasRevision(AttachmentTable(db, read.scope), LookupKey(read), read.revision)
      && PolicyAt(db, account, policy, policyRevision)
      && revision !in db.minted
    case DeleteAttachment(account, read) =>
      && account == cfg.account && MayWrite(cfg, read.scope) && WasRead(db, read) && CheckAttachment(cfg, read)
      && HasRevision(AttachmentTable(db, read.scope), OwnerKey(read), read.revision)
      && HasRevision(AttachmentTable(db, read.scope), LookupKey(read), read.revision)
    case WritePolicy(account, id, _, expected, _) =>
      && account == cfg.account && cfg.region == cfg.writerRegion && IdOk(id)
      && (match expected
          case None => PolicyKey(account, PolicyRef(id, CustomPolicy)) !in db.policies
          case Some(revision) => PolicyAt(db, account, PolicyRef(id, CustomPolicy), revision))
    case DeletePolicy(account, id, expected) =>
      && account == cfg.account && cfg.region == cfg.writerRegion && IdOk(id)
      && PolicyAt(db, account, PolicyRef(id, CustomPolicy), expected)
    case PublishManaged(id, _, _) =>
      IdOk(id) && PolicyKey(cfg.account, PolicyRef(id, ManagedPolicy)) !in db.policies
  }

  function WithTable(db: Db, scope: AttachmentScope, t: Table): Db {
    if scope == GlobalScope then db.(global := t) else db.(regional := t)
  }

  function Copied(t: Table, b: StoredAttachment): Table {
    t[OwnerKey(b) := b][LookupKey(b) := b]
  }

  function PutBoth(db: Db, b: StoredAttachment): Db {
    WithTable(db, b.scope, Copied(AttachmentTable(db, b.scope), b)).(minted := db.minted[b.revision := b])
  }

  function RemoveBoth(db: Db, b: StoredAttachment): Db {
    WithTable(db, b.scope, AttachmentTable(db, b.scope) - {OwnerKey(b), LookupKey(b)})
  }

  function Apply(cfg: Config, db: Db, s: Step): Db
    requires Enabled(cfg, db, s)
  {
    match s
    case CreateAttachment(_, b, _) => PutBoth(db, b)
    case UpdateAttachment(_, read, policy, revision, _) => PutBoth(db, read.(policy := policy, revision := revision))
    case DeleteAttachment(_, read) => RemoveBoth(db, read)
    case WritePolicy(account, id, content, _, revision) =>
      db.(policies := db.policies[PolicyKey(account, PolicyRef(id, CustomPolicy)) :=
                                  StoredPolicy(id, account, content, revision, CustomPolicy)])
    case DeletePolicy(account, id, _) =>
      db.(policies := db.policies - {PolicyKey(account, PolicyRef(id, CustomPolicy))})
    case PublishManaged(id, content, revision) =>
      db.(policies := db.policies[PolicyKey(cfg.account, PolicyRef(id, ManagedPolicy)) :=
                                  StoredPolicy(id, MANAGED_OWNER, content, revision, ManagedPolicy)])
  }

  /** Runs of any accounts' stores in one region; each step names the configuration it ran under. */
  predicate Runs(region: string, db: Db, steps: seq<(Config, Step)>)
    decreases |steps|
  {
    steps == [] ||
    (&& RegionalConfig(steps[0].0) && steps[0].0.region == region
     && Enabled(steps[0].0, db, steps[0].1)
     && Runs(region, Apply(steps[0].0, db, steps[0].1), steps[1..]))
  }

  function Exec(region: string, db: Db, steps: seq<(Config, Step)>): Db
    requires Runs(region, db, steps)
    decreases |steps|
  {
    if steps == [] then db else Exec(region, Apply(steps[0].0, db, steps[0].1), steps[1..])
  }

  const EMPTY := Db(map[], map[], map[], map[])

  /** A stored record is a copy that has its other copy. */
  predicate ItemOk(region: string, scope: AttachmentScope, t: Table, k: ItemKey)
    requires k in t
  {
    var b := t[k];
    && AttachmentOk(region, b) && b.scope == scope
    && (k == OwnerKey(b) || k == LookupKey(b))
    && OwnerKey(b) in t && t[OwnerKey(b)] == b
    && LookupKey(b) in t && t[LookupKey(b)] == b
  }

  ghost predicate TableOk(region: string, scope: AttachmentScope, db: Db) {
    forall k :: k in AttachmentTable(db, scope) ==>
      ItemOk(region, scope, AttachmentTable(db, scope), k) && WasRead(db, AttachmentTable(db, scope)[k])
  }

  predicate PolicyOk(k: ItemKey, p: StoredPolicy) {
    && IdOk(p.id) && k == (AccountKey(p.owner), "POLICY#" + p.id)
    && (if p.kind == CustomPolicy then AccountOk(p.owner) else p.owner == MANAGED_OWNER)
  }

  ghost predicate MintedOk(db: Db) {
    forall r :: r in db.minted ==> db.minted[r].revision == r
  }

  ghost predicate Inv(region: string, db: Db) {
    && (forall scope :: TableOk(region, scope, db)) && MintedOk(db)
    && (forall k :: k in db.policies ==> PolicyOk(k, db.policies[k]))
  }

  /** Both copies of b are absent, or both are copies of one record with b's keys. */
  predicate Replaceable(t: Table, b: StoredAttachment) {
    || (OwnerKey(b) !in t && LookupKey(b) !in t)
    || (OwnerKey(b) in t && OwnerKey(t[OwnerKey(b)]) == OwnerKey(b) && LookupKey(t[OwnerKey(b)]) == LookupKey(b))
  }

  /** A record with a copy elsewhere has neither copy under b's keys. */
  lemma OthersAreElsewhere(region: string, scope: AttachmentScope, t: Table, b: StoredAttachment, k: ItemKey)
    requires Replaceable(t, b) && k in t && ItemOk(region, scope, t, k)
    requires k != OwnerKey(b) && k != LookupKey(b)
    requires OwnerKey(b) in t ==> ItemOk(region, scope, t, OwnerKey(b))
    ensures OwnerKey(t[k]) != OwnerKey(b) && OwnerKey(t[k]) != LookupKey(b)
    ensures LookupKey(t[k]) != OwnerKey(b) && LookupKey(t[k]) != LookupKey(b)
  {
  }

  lemma PutItemOk(region: string, t: Table, b: StoredAttachment, k: ItemKey)
    requires AttachmentOk(region, b) && Replaceable(t, b) && k in Copied(t, b)
    requires k in t ==> ItemOk(region, b.scope, t, k)
    requires OwnerKey(b) in t ==> ItemOk(region, b.scope, t, OwnerKey(b))
    ensures ItemOk(region, b.scope, Copied(t, b), k)
  {
    if k != OwnerKey(b) && k != LookupKey(b) {
      OthersAreElsewhere(region, b.scope, t, b, k);
    }
  }

  lemma SameTableOk(region: string, scope: AttachmentScope, db: Db, after: Db)
    requires TableOk(region, scope, db) && AttachmentTable(after, scope) == AttachmentTable(db, scope)
    requires forall r :: r in db.minted ==> r in after.minted && after.minted[r] == db.minted[r]
    ensures TableOk(region, scope, after)
  {
    var t := AttachmentTable(db, scope);
    forall k | k in t ensures ItemOk(region, scope, t, k) && WasRead(after, t[k]) {
      assert ItemOk(region, scope, t, k) && WasRead(db, t[k]);
    }
  }

  lemma PutWasRead(db: Db, b: StoredAttachment, k: ItemKey)
    requires b.revision !in db.minted && k in Copied(AttachmentTable(db, b.scope), b)
    requires k in AttachmentTable(db, b.scope) ==> WasRead(db, AttachmentTable(db, b.scope)[k])
    ensures WasRead(PutBoth(db, b), Copied(AttachmentTable(db, b.scope), b)[k])
  {
  }

  /** Writing both copies keeps the pairs, when it replaces both copies of one record or neither. */
  lemma PutTableOk(region: string, db: Db, b: StoredAttachment)
    requires TableOk(region, b.scope, db) && AttachmentOk(region, b) && b.revision !in db.minted
    requires Replaceable(AttachmentTable(db, b.scope), b)
    ensures TableOk(region, b.scope, PutBoth(db, b))
  {
    var t := AttachmentTable(db, b.scope);
    var put := Copied(t, b);
    forall k | k in put ensures ItemOk(region, b.scope, put, k) && WasRead(PutBoth(db, b), put[k]) {
      PutItemOk(region, t, b, k);
      PutWasRead(db, b, k);
    }
  }

  lemma PutKeeps(region: string, db: Db, b: StoredAttachment)
    requires Inv(region, db) && AttachmentOk(region, b) && b.revision !in db.minted
    requires Replaceable(AttachmentTable(db, b.scope), b)
    ensures Inv(region, PutBoth(db, b))
  {
    forall scope | true ensures TableOk(region, scope, PutBoth(db, b)) {
      if scope == b.scope {
        PutTableOk(region, db, b);
      } else {
        SameTableOk(region, scope, db, PutBoth(db, b));
      }
    }
  }

  /** A revision match on a key finds exactly the record that was read. */
  lemma RevisionFindsRecord(region: string, db: Db, read: StoredAttachment, k: ItemKey)
    requires Inv(region, db) && WasRead(db, read) && HasRevision(AttachmentTable(db, read.scope), k, read.revision)
    ensures AttachmentTable(db, read.scope)[k] == read
  {
    assert TableOk(region, read.scope, db);
  }

  lemma DeleteItemOk(region: string, scope: AttachmentScope, t: Table, b: StoredAttachment, k: ItemKey)
    requires OwnerKey(b) in t && t[OwnerKey(b)] == b && ItemOk(region, scope, t, OwnerKey(b))
    requires k in t && k != OwnerKey(b) && k != LookupKey(b) && ItemOk(region, scope, t, k)
    ensures ItemOk(region, scope, t - {OwnerKey(b), LookupKey(b)}, k)
  {
    OthersAreElsewhere(region, scope, t, b, k);
  }

  lemma RemovedTableOk(region: string, db: Db, b: StoredAttachment)
    requires TableOk(region, b.scope, db)
    requires OwnerKey(b) in AttachmentTable(db, b.scope) && AttachmentTable(db, b.scope)[OwnerKey(b)] == b
    ensures TableOk(region, b.scope, RemoveBoth(db, b))
  {
    var t := AttachmentTable(db, b.scope);
    var removed := AttachmentTable(RemoveBoth(db, b), b.scope);
    forall k | k in removed ensures ItemOk(region, b.scope, removed, k) && WasRead(RemoveBoth(db, b), removed[k]) {
      DeleteItemOk(region, b.scope, t, b, k);
      assert WasRead(db, t[k]);
    }
  }

  lemma DeleteKeeps(region: string, db: Db, b: StoredAttachment)
    requires Inv(region, db)
    requires OwnerKey(b) in AttachmentTable(db, b.scope) && AttachmentTable(db, b.scope)[OwnerKey(b)] == b
    ensures Inv(region, RemoveBoth(db, b))
  {
    forall scope | true ensures TableOk(region, scope, RemoveBoth(db, b)) {
      if scope == b.scope {
        RemovedTableOk(region, db, b);
      } else {
        SameTableOk(region, scope, db, RemoveBoth(db, b));
      }
    }
  }

  lemma PolicyStepKeeps(region: string, db: Db, policies: map<ItemKey, StoredPolicy>)
    requires Inv(region, db) && forall k :: k in policies ==> PolicyOk(k, policies[k])
    ensures Inv(region, db.(policies := policies))
  {
    forall scope | true ensures TableOk(region, scope, db.(policies := policies)) {
      SameTableOk(region, scope, db, db.(policies := policies));
    }
  }

  lemma InvStep(cfg: Config, db: Db, s: Step)
    requires RegionalConfig(cfg) && Inv(cfg.region, db) && Enabled(cfg, db, s)
    ensures Inv(cfg.region, Apply(cfg, db, s))
  {
    match s
    case CreateAttachment(_, b, _) => PutKeeps(cfg.region, db, b);
    case UpdateAttachment(_, read, policy, revision, _) =>
      RevisionFindsRecord(cfg.region, db, read, OwnerKey(read));
      PutKeeps(cfg.region, db, read.(policy := policy, revision := revision));
    case DeleteAttachment(_, read) =>
      RevisionFindsRecord(cfg.region, db, read, OwnerKey(read));
      DeleteKeeps(cfg.region, db, read);
    case WritePolicy(_, _, _, _, _) => PolicyStepKeeps(cfg.region, db, Apply(cfg, db, s).policies);
    case DeletePolicy(_, _, _) => PolicyStepKeeps(cfg.region, db, Apply(cfg, db, s).policies);
    case PublishManaged(_, _, _) => PolicyStepKeeps(cfg.region, db, Apply(cfg, db, s).policies);
  }

  /** In every reachable state each record has exactly its two copies, equal to each other. */
  lemma {:induction false} CopiesAgreeInEveryRun(region: string, db: Db, steps: seq<(Config, Step)>)
    requires Runs(region, db, steps) && Inv(region, db)
    ensures Inv(region, Exec(region, db, steps))
    decreases |steps|
  {
    if steps != [] {
      InvStep(steps[0].0, db, steps[0].1);
      CopiesAgreeInEveryRun(region, Apply(steps[0].0, db, steps[0].1), steps[1..]);
    }
  }

  /** The copies of a stored record are under its two keys and nowhere else. */
  lemma CopiesOf(region: string, db: Db, read: StoredAttachment)
    requires Inv(region, db) && WasRead(db, read)
    requires HasRevision(AttachmentTable(db, read.scope), OwnerKey(read), read.revision)
    ensures
      var t := AttachmentTable(db, read.scope);
      && OwnerKey(read) in t && LookupKey(read) in t
      && forall k :: k in t ==> (t[k] == read <==> k == OwnerKey(read) || k == LookupKey(read))
  {
    var t := AttachmentTable(db, read.scope);
    RevisionFindsRecord(region, db, read, OwnerKey(read));
    assert TableOk(region, read.scope, db);
    assert ItemOk(region, read.scope, t, OwnerKey(read));
    forall k | k in t ensures t[k] == read <==> k == OwnerKey(read) || k == LookupKey(read) {
      assert ItemOk(region, read.scope, t, k);
    }
  }

  /**
   * An update that commits finds both copies as they were read, however long ago, and
   * changes their policy reference and revision and no other record.
   */
  lemma UpdateChangesOnlyThePolicy(cfg: Config, db: Db, s: Step)
    requires RegionalConfig(cfg) && Inv(cfg.region, db) && Enabled(cfg, db, s) && s.UpdateAttachment?
    ensures
      var t, after := AttachmentTable(db, s.read.scope), AttachmentTable(Apply(cfg, db, s), s.read.scope);
      && after.Keys == t.Keys
      && (forall k :: k in t ==>
            after[k] == if t[k] == s.read then s.read.(policy := s.policy, revision := s.revision) else t[k])
  {
    CopiesOf(cfg.region, db, s.read);
    var t := AttachmentTable(db, s.read.scope);
    var b := s.read.(policy := s.policy, revision := s.revision);
    assert AttachmentTable(Apply(cfg, db, s), s.read.scope) == Copied(t, b);
  }

  /** A delete that commits removes both copies of the record it read and nothing else. */
  lemma DeleteRemovesBothCopies(cfg: Config, db: Db, s: Step)
    requires RegionalConfig(cfg) && Inv(cfg.region, db) && Enabled(cfg, db, s) && s.DeleteAttachment?
    ensures
      var t, after := AttachmentTable(db, s.read.scope), AttachmentTable(Apply(cfg, db, s), s.read.scope);
      && s.read !in after.Values
      && (forall k :: k in t && t[k] != s.read ==> k in after && after[k] == t[k])
  {
    CopiesOf(cfg.region, db, s.read);
  }

  /** A create that commits stores the record under its two keys, next to everything that was there, while its policy exists. */
  lemma CreateStoresBothCopies(cfg: Config, db: Db, s: Step)
    requires RegionalConfig(cfg) && Inv(cfg.region, db) && Enabled(cfg, db, s) && s.CreateAttachment?
    ensures
      var b, t, after := s.created, AttachmentTable(db, s.created.scope), AttachmentTable(Apply(cfg, db, s), s.created.scope);
      && (forall k :: k in after <==> k in t || k == OwnerKey(b) || k == LookupKey(b))
      && OwnerKey(b) !in t && LookupKey(b) !in t && after[OwnerKey(b)] == b == after[LookupKey(b)]
      && (forall k :: k in t ==> after[k] == t[k])
      && b.owner == cfg.account && PolicyKey(cfg.account, b.policy) in db.policies
  {
    var b, t := s.created, AttachmentTable(db, s.created.scope);
    assert AttachmentTable(Apply(cfg, db, s), b.scope) == Copied(t, b);
  }

  lemma OtherAccountsKeys(cfg: Config, other: string, ref: PolicyRef)
    requires RegionalConfig(cfg) && other != PolicyOwner(cfg.account, ref.kind)
    ensures AccountKey(other) != PolicyKey(cfg.account, ref).0
  {
    if AccountKey(other) == PolicyKey(cfg.account, ref).0 {
      AccountKeyIsInjective(other, PolicyOwner(cfg.account, ref.kind));
    }
  }

  /** The record a step writes or deletes. */
  function Touched(s: Step): Option<StoredAttachment> {
    match s
    case CreateAttachment(_, b, _) => Some(b)
    case UpdateAttachment(_, read, _, _, _) => Some(read)
    case DeleteAttachment(_, read) => Some(read)
    case _ => None
  }

  lemma ElsewhereUnchanged(cfg: Config, db: Db, s: Step, scope: AttachmentScope, k: ItemKey)
    requires Enabled(cfg, db, s)
    requires Touched(s).Some? && Touched(s).value.scope == scope ==> k != OwnerKey(Touched(s).value) && k != LookupKey(Touched(s).value)
    ensures var t, after := AttachmentTable(db, scope), AttachmentTable(Apply(cfg, db, s), scope);
      (k in after <==> k in t) && (k in t ==> after[k] == t[k])
  {
    if s.UpdateAttachment? {
      var b := s.read.(policy := s.policy, revision := s.revision);
      assert OwnerKey(b) == OwnerKey(s.read) && LookupKey(b) == LookupKey(s.read);
    }
  }

  lemma OwnersKeys(b: StoredAttachment, c: StoredAttachment)
    requires AccountOk(b.owner) && AccountOk(c.owner) && b.owner != c.owner
    requires PrincipalOk(b.principal) && PrincipalOk(c.principal) && b.principal.account == b.owner && c.principal.account == c.owner
    ensures OwnerKey(b) != OwnerKey(c) && LookupKey(b) != LookupKey(c) && OwnerKey(b) != LookupKey(c) && LookupKey(b) != OwnerKey(c)
  {
    if AccountKey(b.owner) == AccountKey(c.owner) { AccountKeyIsInjective(b.owner, c.owner); }
    if PrincipalKey(b.principal) == PrincipalKey(c.principal) { SamePrincipalKey(b.principal, c.principal); }
    KeyTellsRole(b.principal);
    KeyTellsRole(c.principal);
    assert |AccountKey(b.owner)| == 20 && |AccountKey(c.owner)| == 20;
  }

  /** One account's store never changes an attachment of another account. */
  lemma AttachmentsAreIsolated(cfg: Config, db: Db, s: Step, scope: AttachmentScope, k: ItemKey)
    requires RegionalConfig(cfg) && Inv(cfg.region, db) && Enabled(cfg, db, s)
    requires k in AttachmentTable(db, scope) && AttachmentTable(db, scope)[k].owner != cfg.account
    ensures k in AttachmentTable(Apply(cfg, db, s), scope)
    ensures AttachmentTable(Apply(cfg, db, s), scope)[k] == AttachmentTable(db, scope)[k]
  {
    var b := AttachmentTable(db, scope)[k];
    assert TableOk(cfg.region, scope, db);
    assert ItemOk(cfg.region, scope, AttachmentTable(db, scope), k);
    if Touched(s).Some? { OwnersKeys(b, Touched(s).value); }
    ElsewhereUnchanged(cfg, db, s, scope, k);
  }

  /** What a policy step does to the policy under key k: nothing, unless k is its own. */
  lemma PoliciesAreIsolated(cfg: Config, db: Db, s: Step, k: ItemKey)
    requires RegionalConfig(cfg) && Inv(cfg.region, db) && Enabled(cfg, db, s) && k in db.policies
    requires db.policies[k].owner != cfg.account
    ensures k in Apply(cfg, db, s).policies && Apply(cfg, db, s).policies[k] == db.policies[k]
  {
    assert PolicyOk(k, db.policies[k]);
    match s
    case WritePolicy(_, id, _, _, _) => OtherAccountsKeys(cfg, db.policies[k].owner, PolicyRef(id, CustomPolicy));
    case DeletePolicy(_, id, _) => OtherAccountsKeys(cfg, db.policies[k].owner, PolicyRef(id, CustomPolicy));
    case _ =>
  }

  /** A managed policy, once published, is never changed or removed. */
  lemma {:induction false} ManagedPoliciesAreForEver(region: string, db: Db, steps: seq<(Config, Step)>, id: string)
    requires Runs(region, db, steps) && Inv(region, db)
    requires (AccountKey(MANAGED_OWNER), "POLICY#" + id) in db.policies
    ensures var k := (AccountKey(MANAGED_OWNER), "POLICY#" + id);
      k in Exec(region, db, steps).policies && Exec(region, db, steps).policies[k] == db.policies[k]
    decreases |steps|
  {
    if steps != [] {
      var k := (AccountKey(MANAGED_OWNER), "POLICY#" + id);
      var (cfg, s) := steps[0];
      assert PolicyOk(k, db.policies[k]);
      AccountKeyIsInjective(MANAGED_OWNER, db.policies[k].owner);
      PoliciesAreIsolated(cfg, db, s, k);
      InvStep(cfg, db, s);
      ManagedPoliciesAreForEver(region, Apply(cfg, db, s), steps[1..], id);
    }
  }

  /** What a committed policy write stores, and that it replaces only what it expected. */
  lemma PolicyWriteStores(cfg: Config, db: Db, s: Step)
    requires RegionalConfig(cfg) && Enabled(cfg, db, s) && s.WritePolicy?
    ensures
      var k, after := (AccountKey(cfg.account), "POLICY#" + s.id), Apply(cfg, db, s);
      && k in after.policies && after.policies[k] == StoredPolicy(s.id, cfg.account, s.content, s.revision, CustomPolicy)
      && (s.expected.None? <==> k !in db.policies)
      && (s.expected.Some? ==> db.policies[k].revision == s.expected.value)
      && (forall j :: j != k ==> (j in after.policies <==> j in db.policies))
      && (forall j :: j != k && j in db.policies ==> after.policies[j] == db.policies[j])
      && after.global == db.global && after.regional == db.regional
  {
  }

  /** A committed policy delete removes the custom policy of the expected revision and nothing else. */
  lemma PolicyDeleteRemoves(cfg: Config, db: Db, s: Step)
    requires RegionalConfig(cfg) && Enabled(cfg, db, s) && s.DeletePolicy?
    ensures
      var k, after := (AccountKey(cfg.account), "POLICY#" + s.id), Apply(cfg, db, s);
      && k in db.policies && db.policies[k].revision == s.revision && k !in after.policies
      && (forall j :: j != k ==> (j in after.policies <==> j in db.policies))
      && (forall j :: j in after.policies ==> after.policies[j] == db.policies[j])
      && after.global == db.global && after.regional == db.regional
  {
  }

  /** Publishing adds a managed policy that was not there and touches nothing else. */
  lemma PublishAdds(cfg: Config, db: Db, s: Step)
    requires RegionalConfig(cfg) && Enabled(cfg, db, s) && s.PublishManaged?
    ensures
      var k, after := (AccountKey("MANAGED"), "POLICY#" + s.id), Apply(cfg, db, s);
      && k !in db.policies
      && after == db.(policies := db.policies[k := StoredPolicy(s.id, "MANAGED", s.content, s.revision, ManagedPolicy)])
  {
  }

  /** Global attachments and custom policies change only in the account's writer region. */
  lemma OnlyTheWriterChangesGlobals(cfg: Config, db: Db, s: Step)
    requires RegionalConfig(cfg) && Enabled(cfg, db, s)
    requires Apply(cfg, db, s).global != db.global || s.WritePolicy? || s.DeletePolicy?
    ensures cfg.region == cfg.writerRegion
  {
  }
}
