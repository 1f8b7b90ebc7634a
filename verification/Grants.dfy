/** What resolution returns in every reachable state: exactly the caller's grants. */
module Grants {
  import opened Wrappers
  import opened Principals
  import opened Attachments
  import opened Screening
  import opened Resolution

  /** The account's own listing of its attachments holds b. */
  predicate Attached(db: Db, account: string, b: StoredAttachment) {
    var k := (AccountKey(account), AttachmentSortKey(b.id));
    k in AttachmentTable(db, b.scope) && AttachmentTable(db, b.scope)[k] == b
  }

  /** The reference: filter the account's attachments by scope and principal. */
  predicate Granted(db: Db, account: string, caller: Principal, scopes: seq<AttachmentScope>, b: StoredAttachment) {
    b.scope in scopes && Attached(db, account, b) && MatchesPrincipal(b.principal, caller)
  }

  predicate Caller(account: string, caller: Principal) {
    PrincipalOk(caller) && !caller.Role? && caller.account == account
  }

  lemma LookupKeyIsNoAccountKey(caller: Principal, pk: string, account: string)
    requires PrincipalOk(caller) && AccountOk(account) && pk in LookupKeys(caller)
    ensures pk != AccountKey(account)
  {
    assert |AccountKey(account)| == 20;
    assert |pk| > 20;
  }

  /** An item under one of the caller's keys is the lookup copy of a matching attachment of the account. */
  lemma UnderCallersKey(db: Db, cfg: Config, caller: Principal, scope: AttachmentScope, k: ItemKey)
    requires RegionalConfig(cfg) && Inv(cfg.region, db) && Caller(cfg.account, caller)
    requires k in AttachmentTable(db, scope) && k.0 in LookupKeys(caller)
    ensures var b := AttachmentTable(db, scope)[k];
      && k == LookupKey(b) && b.scope == scope && MatchesPrincipal(b.principal, caller) && Attached(db, cfg.account, b)
      && ReadOk(cfg, scope, k.0, Item(k, b))
  {
    var t := AttachmentTable(db, scope);
    var b := t[k];
    assert TableOk(cfg.region, scope, db);
    assert ItemOk(cfg.region, scope, t, k);
    LookupKeyIsNoAccountKey(caller, k.0, b.owner);
    KeysAreMatching(b.principal, caller);
    SameAccount(b.principal, caller);
  }

  lemma SameAccount(target: Principal, caller: Principal)
    requires PrincipalOk(target) && PrincipalOk(caller) && MatchesPrincipal(target, caller)
    ensures target.account == caller.account
  {
    if Original(target) == Original(caller) {
      OriginalTellsKind(target, caller);
    } else {
      RoleAliasTellsAccount(target, caller);
    }
  }

  /** Every matching attachment of the account has its lookup copy under one of the caller's keys. */
  lemma LookupFinds(db: Db, cfg: Config, caller: Principal, b: StoredAttachment)
    requires RegionalConfig(cfg) && Inv(cfg.region, db) && Caller(cfg.account, caller)
    requires Attached(db, cfg.account, b) && MatchesPrincipal(b.principal, caller)
    ensures var t := AttachmentTable(db, b.scope);
      LookupKey(b) in t && t[LookupKey(b)] == b && PrincipalKey(b.principal) in LookupKeys(caller)
  {
    var t := AttachmentTable(db, b.scope);
    assert TableOk(cfg.region, b.scope, db);
    assert ItemOk(cfg.region, b.scope, t, (AccountKey(cfg.account), AttachmentSortKey(b.id)));
    KeysAreMatching(b.principal, caller);
  }

  lemma {:induction false} LookupsMember(scopes: seq<AttachmentScope>, keys: seq<string>, scope: AttachmentScope, pk: string)
    ensures (scope, pk) in Lookups(scopes, keys) <==> scope in scopes && pk in keys
  {
    if scopes != [] {
      var n := |scopes| - 1;
      LookupsMember(scopes[..n], keys, scope, pk);
      assert scopes == scopes[..n] + [scopes[n]];
      var last := ScopeLookups(scopes[n], keys);
      assert (scope, pk) in last <==> scope == scopes[n] && pk in keys by {
        if scope == scopes[n] && pk in keys {
          var j :| 0 <= j < |keys| && keys[j] == pk;
          assert last[j] == (scope, pk);
        }
      }
    }
  }

  lemma {:induction false} LookupsDistinct(scopes: seq<AttachmentScope>, keys: seq<string>)
    requires Distinct(scopes) && Distinct(keys)
    ensures Distinct(Lookups(scopes, keys))
  {
    if scopes != [] {
      var n := |scopes| - 1;
      LookupsDistinct(scopes[..n], keys);
      var front, last := Lookups(scopes[..n], keys), ScopeLookups(scopes[n], keys);
      forall i, j | 0 <= i < |front| && 0 <= j < |last| ensures front[i] != last[j] {
        LookupsMember(scopes[..n], keys, front[i].0, front[i].1);
        assert front[i] in front;
      }
    }
  }

  predicate FoundAt(query: Query, lookups: seq<(AttachmentScope, string)>, i: int, b: StoredAttachment) {
    0 <= i < |lookups| && b in Records(query(lookups[i].0, lookups[i].1))
  }

  /** Where a found record came from. */
  lemma {:induction false} FoundMember(query: Query, lookups: seq<(AttachmentScope, string)>, b: StoredAttachment)
    ensures b in Found(query, lookups) <==> exists i :: FoundAt(query, lookups, i, b)
  {
    if lookups != [] {
      var n := |lookups| - 1;
      FoundMember(query, lookups[..n], b);
      var records := Records(query(lookups[n].0, lookups[n].1));
      assert Found(query, lookups) == Found(query, lookups[..n]) + records;
      if b in records {
        assert FoundAt(query, lookups, n, b);
      } else if b in Found(query, lookups[..n]) {
        var i :| FoundAt(query, lookups[..n], i, b);
        assert FoundAt(query, lookups, i, b);
      } else if i :| FoundAt(query, lookups, i, b) {
        assert i < n ==> FoundAt(query, lookups[..n], i, b);
      }
    }
  }

  lemma RecordsMember(items: seq<Item>, t: Table, pk: string, b: StoredAttachment)
    requires Lists(items, t, pk)
    ensures b in Records(items) <==> exists k :: k in t && k.0 == pk && t[k] == b
  {
    if b in Records(items) {
      var i :| 0 <= i < |items| && Records(items)[i] == b;
      assert items[i].key in t;
    }
    if k :| k in t && k.0 == pk && t[k] == b {
      var i :| 0 <= i < |items| && items[i] == Item(k, t[k]);
      assert Records(items)[i] == b;
    }
  }

  /** The lookups find a record exactly when the reference filter keeps it. */
  lemma FoundIsGranted(db: Db, cfg: Config, caller: Principal, query: Query, scopes: seq<AttachmentScope>, b: StoredAttachment)
    requires RegionalConfig(cfg) && Inv(cfg.region, db) && Caller(cfg.account, caller) && Answers(query, db)
    ensures b in Found(query, Lookups(scopes, LookupKeys(caller))) <==> Granted(db, cfg.account, caller, scopes, b)
  {
    var lookups := Lookups(scopes, LookupKeys(caller));
    FoundMember(query, lookups, b);
    if i :| FoundAt(query, lookups, i, b) {
      var (scope, pk) := lookups[i];
      assert lookups[i] in lookups;
      LookupsMember(scopes, LookupKeys(caller), scope, pk);
      RecordsMember(query(scope, pk), AttachmentTable(db, scope), pk, b);
      var k :| k in AttachmentTable(db, scope) && k.0 == pk && AttachmentTable(db, scope)[k] == b;
      UnderCallersKey(db, cfg, caller, scope, k);
    }
    if Granted(db, cfg.account, caller, scopes, b) {
      LookupFinds(db, cfg, caller, b);
      var pk := PrincipalKey(b.principal);
      LookupsMember(scopes, LookupKeys(caller), b.scope, pk);
      var i :| 0 <= i < |lookups| && lookups[i] == (b.scope, pk);
      RecordsMember(query(b.scope, pk), AttachmentTable(db, b.scope), pk, b);
      assert FoundAt(query, lookups, i, b);
    }
  }

  lemma DiagnosticIdTells(region: string, b: StoredAttachment, c: StoredAttachment)
    requires AttachmentOk(region, b) && AttachmentOk(region, c) && DiagnosticId(b) == DiagnosticId(c)
    ensures b.scope == c.scope && b.id == c.id
  {
    var scopeText := (x: StoredAttachment) => if x.scope == GlobalScope then "global" else "regional";
    assert DiagnosticId(b)[0] == scopeText(b)[0] && DiagnosticId(c)[0] == scopeText(c)[0];
    assert DiagnosticId(b) == (scopeText(b) + "/" + b.region + "/") + b.id;
    assert DiagnosticId(c) == (scopeText(c) + "/" + c.region + "/") + c.id;
    Cancel(scopeText(b) + "/" + b.region + "/", b.id, scopeText(c) + "/" + c.region + "/", c.id);
  }

  /** One diagnostic identity is one item under the caller's keys. */
  lemma OneItem(db: Db, cfg: Config, caller: Principal, s: AttachmentScope, k: ItemKey, s': AttachmentScope, k': ItemKey)
    requires RegionalConfig(cfg) && Inv(cfg.region, db) && Caller(cfg.account, caller)
    requires k in AttachmentTable(db, s) && k.0 in LookupKeys(caller)
    requires k' in AttachmentTable(db, s') && k'.0 in LookupKeys(caller)
    requires DiagnosticId(AttachmentTable(db, s)[k]) == DiagnosticId(AttachmentTable(db, s')[k'])
    ensures s == s' && k == k'
  {
    UnderCallersKey(db, cfg, caller, s, k);
    UnderCallersKey(db, cfg, caller, s', k');
    DiagnosticIdTells(cfg.region, AttachmentTable(db, s)[k], AttachmentTable(db, s')[k']);
  }

  predicate DistinctUnder<A, B(==)>(f: A -> B, s: seq<A>) {
    forall i, j :: 0 <= i < j < |s| ==> f(s[i]) != f(s[j])
  }

  lemma DistinctAppend<A, B>(f: A -> B, s: seq<A>, t: seq<A>)
    requires DistinctUnder(f, s) && DistinctUnder(f, t)
    requires forall i, j :: 0 <= i < |s| && 0 <= j < |t| ==> f(s[i]) != f(t[j])
    ensures DistinctUnder(f, s + t)
  {
  }

  predicate IdsDistinct(bs: seq<StoredAttachment>) {
    DistinctUnder(DiagnosticId, bs)
  }

  lemma IdsDistinctInOne(db: Db, cfg: Config, caller: Principal, items: seq<Item>, scope: AttachmentScope, pk: string)
    requires RegionalConfig(cfg) && Inv(cfg.region, db) && Caller(cfg.account, caller)
    requires Lists(items, AttachmentTable(db, scope), pk) && pk in LookupKeys(caller)
    ensures IdsDistinct(Records(items))
  {
    forall i, j | 0 <= i < j < |items| ensures DiagnosticId(items[i].record) != DiagnosticId(items[j].record) {
      if DiagnosticId(items[i].record) == DiagnosticId(items[j].record) {
        OneItem(db, cfg, caller, scope, items[i].key, scope, items[j].key);
      }
    }
  }

  /** Different lookups find different attachments. */
  lemma IdsDistinctAcross(db: Db, cfg: Config, caller: Principal, query: Query, l: (AttachmentScope, string), m: (AttachmentScope, string),
                          b: StoredAttachment, c: StoredAttachment)
    requires RegionalConfig(cfg) && Inv(cfg.region, db) && Caller(cfg.account, caller) && Answers(query, db)
    requires l != m && l.1 in LookupKeys(caller) && m.1 in LookupKeys(caller)
    requires b in Records(query(l.0, l.1)) && c in Records(query(m.0, m.1))
    ensures DiagnosticId(b) != DiagnosticId(c)
  {
    RecordsMember(query(l.0, l.1), AttachmentTable(db, l.0), l.1, b);
    RecordsMember(query(m.0, m.1), AttachmentTable(db, m.0), m.1, c);
    var k :| k in AttachmentTable(db, l.0) && k.0 == l.1 && AttachmentTable(db, l.0)[k] == b;
    var k' :| k' in AttachmentTable(db, m.0) && k'.0 == m.1 && AttachmentTable(db, m.0)[k'] == c;
    if DiagnosticId(b) == DiagnosticId(c) {
      OneItem(db, cfg, caller, l.0, k, m.0, k');
    }
  }

  /** What the last lookup finds, no earlier lookup has found. */
  lemma NotFoundBefore(db: Db, cfg: Config, caller: Principal, query: Query, lookups: seq<(AttachmentScope, string)>,
                       b: StoredAttachment, c: StoredAttachment)
    requires RegionalConfig(cfg) && Inv(cfg.region, db) && Caller(cfg.account, caller) && Answers(query, db)
    requires lookups != [] && Distinct(lookups) && forall i :: 0 <= i < |lookups| ==> lookups[i].1 in LookupKeys(caller)
    requires b in Found(query, lookups[..|lookups| - 1]) && FoundAt(query, lookups, |lookups| - 1, c)
    ensures DiagnosticId(b) != DiagnosticId(c)
  {
    var n := |lookups| - 1;
    FoundMember(query, lookups[..n], b);
    var l :| FoundAt(query, lookups[..n], l, b);
    IdsDistinctAcross(db, cfg, caller, query, lookups[l], lookups[n], b, c);
  }

  lemma {:induction false} NothingFoundTwice(db: Db, cfg: Config, caller: Principal, query: Query, lookups: seq<(AttachmentScope, string)>)
    requires RegionalConfig(cfg) && Inv(cfg.region, db) && Caller(cfg.account, caller) && Answers(query, db)
    requires Distinct(lookups) && forall i :: 0 <= i < |lookups| ==> lookups[i].1 in LookupKeys(caller)
    ensures IdsDistinct(Found(query, lookups))
    decreases |lookups|
  {
    if lookups != [] {
      var n := |lookups| - 1;
      var front, last := Found(query, lookups[..n]), Records(query(lookups[n].0, lookups[n].1));
      NothingFoundTwice(db, cfg, caller, query, lookups[..n]);
      IdsDistinctInOne(db, cfg, caller, query(lookups[n].0, lookups[n].1), lookups[n].0, lookups[n].1);
      forall i, j | 0 <= i < |front| && 0 <= j < |last| ensures DiagnosticId(front[i]) != DiagnosticId(last[j]) {
        assert front[i] in front && last[j] in last;
        NotFoundBefore(db, cfg, caller, query, lookups, front[i], last[j]);
      }
      DistinctAppend(DiagnosticId, front, last);
    }
  }

  /** Role attachments with one alias and different texts. */
  predicate Confusable(b: StoredAttachment, c: StoredAttachment) {
    && b.principal.Role? && c.principal.Role?
    && RoleAlias(b.principal) == RoleAlias(c.principal) && Original(b.principal) != Original(c.principal)
  }

  /** Two of the caller's grants name roles that its session cannot tell apart. */
  ghost predicate AmbiguousGrants(db: Db, account: string, caller: Principal, scopes: seq<AttachmentScope>) {
    exists b, c :: TwoPaths(db, account, caller, scopes, b, c)
  }

  predicate TwoPaths(db: Db, account: string, caller: Principal, scopes: seq<AttachmentScope>, b: StoredAttachment, c: StoredAttachment) {
    Granted(db, account, caller, scopes, b) && Granted(db, account, caller, scopes, c) && Confusable(b, c)
  }

  /** A grant refers to a policy that has been deleted. */
  ghost predicate MissingPolicy(db: Db, cfg: Config, caller: Principal, scopes: seq<AttachmentScope>) {
    exists b :: Granted(db, cfg.account, caller, scopes, b) && !PolicyStored(db, cfg, b.policy)
  }

  lemma ReadsAreSound(db: Db, cfg: Config, caller: Principal, query: Query, scopes: seq<AttachmentScope>)
    requires RegionalConfig(cfg) && Inv(cfg.region, db) && Caller(cfg.account, caller) && Answers(query, db)
    ensures !Corrupt(db, cfg, query, Lookups(scopes, LookupKeys(caller)))
  {
    var lookups := Lookups(scopes, LookupKeys(caller));
    forall i | 0 <= i < |lookups| ensures AllReadOk(cfg, lookups[i].0, lookups[i].1, query(lookups[i].0, lookups[i].1)) {
      var (scope, pk) := lookups[i];
      assert lookups[i] in lookups;
      LookupsMember(scopes, LookupKeys(caller), scope, pk);
      assert Lists(query(scope, pk), AttachmentTable(db, scope), pk);
      forall j | 0 <= j < |query(scope, pk)| ensures ReadOk(cfg, scope, pk, query(scope, pk)[j]) {
        UnderCallersKey(db, cfg, caller, scope, query(scope, pk)[j].key);
      }
    }
    forall ref ensures PolicyReadable(db, cfg, ref) {
      var k := PolicyKey(cfg.account, ref);
      if k in db.policies {
        StoredPolicyDecodes(cfg, ref, db.policies[k]);
      }
    }
  }

  /** What every resolution returns: the granted attachments with their stored policies, each once. */
  ghost predicate ExactlyTheGrants(db: Db, cfg: Config, caller: Principal, scopes: seq<AttachmentScope>, grants: seq<Grant>) {
    && (forall b :: Granted(db, cfg.account, caller, scopes, b) <==> exists i :: 0 <= i < |grants| && grants[i].attachment == b)
    && (forall i, j :: 0 <= i < j < |grants| ==> grants[i].attachment != grants[j].attachment)
    && (forall i :: 0 <= i < |grants| ==> GrantOk(db, cfg, grants[i], grants[i].attachment))
  }

  lemma CandidateRole(caller: Principal, bs: seq<StoredAttachment>, i: nat)
    requires i < |bs|
    ensures var c, p := Candidates(caller, bs)[i], bs[i].principal;
      c.role == p.Role? && c.alias == RoleAlias(p) && c.original == Original(p)
  {
    assert Candidates(caller, bs)[i] == CandidateOf(caller, bs[i]);
  }

  lemma AmbiguousIsConfusable(caller: Principal, bs: seq<StoredAttachment>, i: nat, j: nat)
    requires i < |bs| && j < |bs|
    ensures Ambiguous(Candidates(caller, bs)[i], Candidates(caller, bs)[j]) <==> Confusable(bs[i], bs[j])
  {
    CandidateRole(caller, bs, i);
    CandidateRole(caller, bs, j);
  }

  lemma AmbiguityShows(caller: Principal, bs: seq<StoredAttachment>)
    ensures Shows(AmbiguousRole, Candidates(caller, bs)) <==> exists i, j :: 0 <= i < j < |bs| && Confusable(bs[i], bs[j])
  {
    var cs := Candidates(caller, bs);
    if i, j :| FaultAt(AmbiguousRole, cs, i, j) {
      AmbiguousIsConfusable(caller, bs, i, j);
    }
    if i, j :| 0 <= i < j < |bs| && Confusable(bs[i], bs[j]) {
      AmbiguousIsConfusable(caller, bs, i, j);
      assert FaultAt(AmbiguousRole, cs, i, j);
    }
  }

  lemma CandidateIds(caller: Principal, bs: seq<StoredAttachment>, i: nat)
    requires i < |bs|
    ensures Candidates(caller, bs)[i].diagnosticId == DiagnosticId(bs[i])
  {
    assert Candidates(caller, bs)[i] == CandidateOf(caller, bs[i]);
  }

  lemma DuplicatesShow(caller: Principal, bs: seq<StoredAttachment>)
    ensures Shows(DuplicateAttachment, Candidates(caller, bs)) <==> !IdsDistinct(bs)
  {
    var cs := Candidates(caller, bs);
    if i, j :| FaultAt(DuplicateAttachment, cs, i, j) {
      CandidateIds(caller, bs, i);
      CandidateIds(caller, bs, j);
    }
    if i, j :| 0 <= i < j < |bs| && DiagnosticId(bs[i]) == DiagnosticId(bs[j]) {
      CandidateIds(caller, bs, i);
      CandidateIds(caller, bs, j);
      assert FaultAt(DuplicateAttachment, cs, i, j);
    }
  }

  lemma MismatchShows(caller: Principal, bs: seq<StoredAttachment>)
    requires forall i :: 0 <= i < |bs| ==> MatchesPrincipal(bs[i].principal, caller)
    ensures !Shows(LookupMismatch, Candidates(caller, bs))
  {
    forall i, j ensures !FaultAt(LookupMismatch, Candidates(caller, bs), i, j) {
      assert 0 <= i < |bs| ==> MatchesPrincipal(bs[i].principal, caller);
    }
  }

  ghost predicate AreGranted(db: Db, account: string, caller: Principal, scopes: seq<AttachmentScope>, bs: seq<StoredAttachment>) {
    forall b :: b in bs <==> Granted(db, account, caller, scopes, b)
  }

  /** Over the granted attachments, the alias check fails exactly when two of them are ambiguous. */
  lemma AmbiguousExactly(db: Db, account: string, caller: Principal, scopes: seq<AttachmentScope>, bs: seq<StoredAttachment>)
    requires AreGranted(db, account, caller, scopes, bs)
    ensures Shows(AmbiguousRole, Candidates(caller, bs)) <==> AmbiguousGrants(db, account, caller, scopes)
  {
    AmbiguityShows(caller, bs);
    if i, j :| 0 <= i < j < |bs| && Confusable(bs[i], bs[j]) {
      assert bs[i] in bs && bs[j] in bs;
      assert TwoPaths(db, account, caller, scopes, bs[i], bs[j]);
    }
    if b, c :| TwoPaths(db, account, caller, scopes, b, c) {
      assert b in bs && c in bs;
      var i :| 0 <= i < |bs| && bs[i] == b;
      var j :| 0 <= j < |bs| && bs[j] == c;
      assert Confusable(bs[i], bs[j]) && Confusable(bs[j], bs[i]);
    }
  }

  lemma LookupsAreGranted(db: Db, cfg: Config, caller: Principal, query: Query, scopes: seq<AttachmentScope>)
    requires RegionalConfig(cfg) && Inv(cfg.region, db) && Caller(cfg.account, caller) && Answers(query, db)
    ensures AreGranted(db, cfg.account, caller, scopes, Found(query, Lookups(scopes, LookupKeys(caller))))
  {
    forall b ensures b in Found(query, Lookups(scopes, LookupKeys(caller))) <==> Granted(db, cfg.account, caller, scopes, b) {
      FoundIsGranted(db, cfg, caller, query, scopes, b);
    }
  }

  lemma GrantsOf(db: Db, cfg: Config, caller: Principal, scopes: seq<AttachmentScope>, bs: seq<StoredAttachment>, grants: seq<Grant>)
    requires AreGranted(db, cfg.account, caller, scopes, bs) && IdsDistinct(bs) && |grants| == |bs|
    requires forall i :: 0 <= i < |bs| ==> GrantOk(db, cfg, grants[i], bs[i])
    ensures ExactlyTheGrants(db, cfg, caller, scopes, grants) && !MissingPolicy(db, cfg, caller, scopes)
  {
    forall b ensures Granted(db, cfg.account, caller, scopes, b) <==> exists i :: 0 <= i < |grants| && grants[i].attachment == b {
      if b in bs {
        var i :| 0 <= i < |bs| && bs[i] == b;
        assert grants[i].attachment == b;
      }
    }
  }

  lemma ResolvedIsExact(db: Db, cfg: Config, caller: Principal, query: Query, scopes: seq<AttachmentScope>, grants: seq<Grant>)
    requires RegionalConfig(cfg) && Inv(cfg.region, db) && Caller(cfg.account, caller) && Answers(query, db)
    requires Outcome(db, cfg, caller, query, Lookups(scopes, LookupKeys(caller)), Resolved(grants))
    ensures ExactlyTheGrants(db, cfg, caller, scopes, grants)
    ensures !AmbiguousGrants(db, cfg.account, caller, scopes) && !MissingPolicy(db, cfg, caller, scopes)
  {
    var bs := Found(query, Lookups(scopes, LookupKeys(caller)));
    LookupsAreGranted(db, cfg, caller, query, scopes);
    DuplicatesShow(caller, bs);
    AmbiguousExactly(db, cfg.account, caller, scopes, bs);
    GrantsOf(db, cfg, caller, scopes, bs, grants);
  }

  /** A refusal has one of two causes, both of them facts about the caller's grants. */
  lemma RefusedHasCause(db: Db, cfg: Config, caller: Principal, query: Query, scopes: seq<AttachmentScope>, fault: Fault)
    requires RegionalConfig(cfg) && Inv(cfg.region, db) && Caller(cfg.account, caller) && Answers(query, db) && Distinct(scopes)
    requires Outcome(db, cfg, caller, query, Lookups(scopes, LookupKeys(caller)), Refused(fault))
    ensures fault == AmbiguousRole || fault == PolicyNotFound
    ensures fault == AmbiguousRole ==> AmbiguousGrants(db, cfg.account, caller, scopes)
    ensures fault == PolicyNotFound ==> MissingPolicy(db, cfg, caller, scopes)
  {
    var lookups := Lookups(scopes, LookupKeys(caller));
    var bs := Found(query, lookups);
    ReadsAreSound(db, cfg, caller, query, scopes);
    LookupsAreGranted(db, cfg, caller, query, scopes);
    assert forall i :: 0 <= i < |bs| ==> bs[i] in bs;
    MismatchShows(caller, bs);
    CallersLookups(scopes, caller);
    NothingFoundTwice(db, cfg, caller, query, lookups);
    DuplicatesShow(caller, bs);
    AmbiguousExactly(db, cfg.account, caller, scopes, bs);
  }

  lemma CallersLookups(scopes: seq<AttachmentScope>, caller: Principal)
    requires Distinct(scopes) && PrincipalOk(caller)
    ensures Distinct(Lookups(scopes, LookupKeys(caller)))
    ensures forall i :: 0 <= i < |Lookups(scopes, LookupKeys(caller))| ==> Lookups(scopes, LookupKeys(caller))[i].1 in LookupKeys(caller)
  {
    if caller.Session? {
      LookupKeysAreDistinct(caller);
    }
    LookupsDistinct(scopes, LookupKeys(caller));
    var lookups := Lookups(scopes, LookupKeys(caller));
    forall i | 0 <= i < |lookups| ensures lookups[i].1 in LookupKeys(caller) {
      assert lookups[i] in lookups;
      LookupsMember(scopes, LookupKeys(caller), lookups[i].0, lookups[i].1);
    }
  }

  /**
   * In every state the region's stores can reach, resolution succeeds exactly when no
   * two grants of the caller are roles with one alias and every granted policy exists;
   * it then returns exactly the caller's grants, and otherwise nothing.
   */
  method ResolveReachable(ghost steps: seq<(Config, Step)>, db: Db, cfg: Config, id: Identity, query: Query,
                          scopes: seq<AttachmentScope>)
    returns (r: Resolved)
    requires RegionalConfig(cfg) && Runs(cfg.region, EMPTY, steps) && db == Exec(cfg.region, EMPTY, steps)
    requires Answers(query, db) && Distinct(scopes)
    ensures r == Refused(BadIdentity) <==>
      !(PrincipalOk(id.caller) && !id.caller.Role? && id.caller.account == id.account == cfg.account && !id.allowlisted)
    ensures r != Refused(BadIdentity) ==>
      (r.Resolved? <==> !AmbiguousGrants(db, cfg.account, id.caller, scopes) && !MissingPolicy(db, cfg, id.caller, scopes))
    ensures r.Resolved? ==> ExactlyTheGrants(db, cfg, id.caller, scopes, r.grants)
    ensures r.Refused? ==> r.fault in {BadIdentity, AmbiguousRole, PolicyNotFound}
  {
    r := ResolveScopes(db, cfg, id, query, scopes);
    CopiesAgreeInEveryRun(cfg.region, EMPTY, steps);
    if IdentityOk(cfg, id) {
      match r
      case Resolved(grants) => ResolvedIsExact(db, cfg, id.caller, query, scopes, grants);
      case Refused(fault) => RefusedHasCause(db, cfg, id.caller, query, scopes, fault);
    }
  }

  predicate AppliesInRegion(b: StoredAttachment, requestRegion: string) {
    b.scope == GlobalScope || b.region == requestRegion
  }

  /**
   * The filter Prepare applies again to resolved attachments keeps all of them, and in
   * any other region would keep the global ones only.
   */
  lemma PrepareDropsNothing(db: Db, cfg: Config, caller: Principal, scopes: seq<AttachmentScope>, b: StoredAttachment)
    requires RegionalConfig(cfg) && Inv(cfg.region, db) && Granted(db, cfg.account, caller, scopes, b)
    ensures MatchesPrincipal(b.principal, caller)
    ensures forall region :: AppliesInRegion(b, region) <==> b.scope == GlobalScope || region == cfg.region
  {
    assert TableOk(cfg.region, b.scope, db);
    assert ItemOk(cfg.region, b.scope, AttachmentTable(db, b.scope), (AccountKey(cfg.account), AttachmentSortKey(b.id)));
  }
}
