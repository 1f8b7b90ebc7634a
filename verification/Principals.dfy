/** AWS principals, how attachments match callers, and the lookup keys attachments are stored under. */
module Principals {

  /** Parsed principal ARNs: an IAM user or role with its path (the name is last), or an STS role session. */
  datatype Principal =
    | User(account: string, path: seq<string>)
    | Role(account: string, path: seq<string>)
    | Session(account: string, role: string, session: string)

  predicate AccountOk(a: string) {
    |a| == 12 && forall c :: c in a ==> '0' <= c <= '9'
  }

  predicate NameChar(c: char) {
    'A' <= c <= 'Z' || 'a' <= c <= 'z' || '0' <= c <= '9' || c in "+=,.@_-"
  }

  predicate NameOk(n: string) {
    0 < |n| <= 64 && forall c :: c in n ==> NameChar(c)
  }

  /** What parsePrincipal accepts. */
  predicate PrincipalOk(p: Principal) {
    && AccountOk(p.account)
    && (if p.Session? then NameOk(p.role) && NameOk(p.session)
        else
          && p.path != []
          && |Resource(p)| <= 513
          && forall n :: n in p.path ==> NameOk(n) && n != "." && n != "..")
  }

  function JoinPath(path: seq<string>): string {
    if path == [] then "" else "/" + path[0] + JoinPath(path[1..])
  }

  function Service(p: Principal): string {
    if p.Session? then "arn:aws:sts::" else "arn:aws:iam::"
  }

  /** The resource part with the colon before it. */
  function Resource(p: Principal): string {
    match p
    case User(_, path) => ":user" + JoinPath(path)
    case Role(_, path) => ":role" + JoinPath(path)
    case Session(_, role, session) => ":assumed-role/" + role + "/" + session
  }

  /** The ARN text. */
  function Original(p: Principal): string {
    Service(p) + p.account + Resource(p)
  }

  /** The last name of a role's path, or the role a session assumed; users have none. */
  function RoleName(p: Principal): string {
    match p
    case User(_, _) => ""
    case Role(_, path) => if path == [] then "" else path[|path| - 1]
    case Session(_, role, _) => role
  }

  function RoleAlias(p: Principal): string {
    "aws/" + p.account + "/" + RoleName(p)
  }

  /** An exact match, or a session of a role with the same final name. */
  predicate MatchesPrincipal(target: Principal, caller: Principal) {
    Original(target) == Original(caller) || (target.Role? && caller.Session? && RoleAlias(target) == RoleAlias(caller))
  }

  function AccountKey(account: string): string { "ACCOUNT#" + account }

  function RoleKey(p: Principal): string { "ACCOUNT#" + p.account + "#ROLE#" + RoleAlias(p) }

  function PrincipalKey(p: Principal): string {
    if p.Role? then RoleKey(p) else "ACCOUNT#" + p.account + "#EXACT#" + Original(p)
  }

  /** The keys resolveScopes looks under for a caller. */
  function LookupKeys(caller: Principal): seq<string> {
    if caller.Session? then [PrincipalKey(caller), RoleKey(caller)] else [PrincipalKey(caller)]
  }

  /** Texts with equal prefixes of one length agree on the rest. */
  lemma Cancel(a: string, x: string, b: string, y: string)
    requires a + x == b + y && |a| == |b|
    ensures a == b && x == y
  {
    assert (a + x)[..|a|] == a && (b + y)[..|b|] == b;
    assert (a + x)[|a|..] == x && (b + y)[|b|..] == y;
  }

  lemma AccountKeyIsInjective(a: string, b: string)
    requires AccountKey(a) == AccountKey(b)
    ensures a == b
  {
    Cancel("ACCOUNT#", a, "ACCOUNT#", b);
  }

  /** Texts of one shape, with middle fields of one length, agree field by field. */
  lemma SameFields(head: string, a: string, mid: string, x: string, b: string, y: string)
    requires head + a + mid + x == head + b + mid + y && |a| == |b|
    ensures a == b && x == y
  {
    Cancel(head + a + mid, x, head + b + mid, y);
    Cancel(head + a, mid, head + b, mid);
    Cancel(head, a, head, b);
  }

  lemma MiddleAt(head: string, a: string, mid: string, x: string)
    requires |mid| >= 2
    ensures |head + a + mid + x| >= |head| + |a| + 2 && (head + a + mid + x)[|head| + |a| + 1] == mid[1]
  {
    assert (head + a + mid)[|head| + |a| + 1] == mid[1];
  }

  /** The character after the account tells role keys from exact keys. */
  lemma KeyTellsRole(p: Principal)
    requires AccountOk(p.account)
    ensures |PrincipalKey(p)| > 21 && PrincipalKey(p)[21] == if p.Role? then 'R' else 'E'
    ensures |RoleKey(p)| > 21 && RoleKey(p)[21] == 'R'
  {
    MiddleAt("ACCOUNT#", p.account, "#ROLE#", RoleAlias(p));
    MiddleAt("ACCOUNT#", p.account, "#EXACT#", Original(p));
  }

  lemma SamePrincipalKey(p: Principal, q: Principal)
    requires PrincipalOk(p) && PrincipalOk(q) && PrincipalKey(p) == PrincipalKey(q)
    ensures p.account == q.account && p.Role? == q.Role?
    ensures p.Role? ==> RoleAlias(p) == RoleAlias(q)
    ensures !p.Role? ==> Original(p) == Original(q)
  {
    KeyTellsRole(p);
    KeyTellsRole(q);
    if p.Role? {
      SameFields("ACCOUNT#", p.account, "#ROLE#", RoleAlias(p), q.account, RoleAlias(q));
    } else {
      SameFields("ACCOUNT#", p.account, "#EXACT#", Original(p), q.account, Original(q));
    }
  }

  lemma RoleKeyIsRoleAlias(p: Principal, q: Principal)
    requires PrincipalOk(p) && PrincipalOk(q) && PrincipalKey(p) == RoleKey(q)
    ensures p.Role? && RoleAlias(p) == RoleAlias(q)
  {
    KeyTellsRole(p);
    KeyTellsRole(q);
    SameFields("ACCOUNT#", p.account, "#ROLE#", RoleAlias(p), q.account, RoleAlias(q));
  }

  lemma RoleAliasTellsAccount(p: Principal, q: Principal)
    requires PrincipalOk(p) && PrincipalOk(q) && RoleAlias(p) == RoleAlias(q)
    ensures p.account == q.account
  {
    SameFields("aws/", p.account, "/", RoleName(p), q.account, RoleName(q));
  }

  lemma ResourceTellsKind(p: Principal)
    ensures |Resource(p)| > 1 && Resource(p)[1] == if p.User? then 'u' else if p.Role? then 'r' else 'a'
  {
    match p
    case User(_, path) => assert (":user" + JoinPath(path))[1] == ":user"[1];
    case Role(_, path) => assert (":role" + JoinPath(path))[1] == ":role"[1];
    case Session(_, role, session) => assert Resource(p)[1] == ":assumed-role/"[1];
  }

  /** The ARN text tells users, roles and sessions apart. */
  lemma OriginalTellsKind(p: Principal, q: Principal)
    requires PrincipalOk(p) && PrincipalOk(q) && Original(p) == Original(q)
    ensures p.account == q.account && p.Role? == q.Role? && p.Session? == q.Session?
  {
    ResourceTellsKind(p);
    ResourceTellsKind(q);
    Cancel(Service(p) + p.account, Resource(p), Service(q) + q.account, Resource(q));
    Cancel(Service(p), p.account, Service(q), q.account);
  }

  /** Empty, or starting with a slash. */
  predicate Slashed(x: string) { x == "" || x[0] == '/' }

  lemma NotLonger(a: string, x: string, b: string, y: string)
    requires a + x == b + y && Slashed(x) && '/' !in b
    ensures |b| <= |a|
  {
    assert x != "" ==> (a + x)[|a|] == '/';
    assert forall i :: 0 <= i < |b| ==> (b + y)[i] == b[i] && b[i] != '/';
    assert |a + x| == |a| + |x| && |b + y| == |b| + |y|;
  }

  /** A name ends where the next slash begins. */
  lemma SameName(a: string, x: string, b: string, y: string)
    requires a + x == b + y && Slashed(x) && Slashed(y) && '/' !in a && '/' !in b
    ensures a == b && x == y
  {
    NotLonger(a, x, b, y);
    NotLonger(b, y, a, x);
    Cancel(a, x, b, y);
  }

  lemma NameHasNoSlash(n: string)
    requires NameOk(n)
    ensures '/' !in n
  {
    assert !NameChar('/');
  }

  lemma JoinPathParts(path: seq<string>)
    requires path != []
    ensures JoinPath(path) == "/" + (path[0] + JoinPath(path[1..])) && Slashed(JoinPath(path[1..]))
  {
    assert "/" + path[0] + JoinPath(path[1..]) == "/" + (path[0] + JoinPath(path[1..]));
  }

  lemma {:induction false} SamePath(p: seq<string>, q: seq<string>)
    requires JoinPath(p) == JoinPath(q)
    requires forall n :: n in p || n in q ==> '/' !in n
    ensures p == q
    decreases |p|
  {
    if p != [] { JoinPathParts(p); }
    if q != [] { JoinPathParts(q); }
    if p != [] && q != [] {
      Cancel("/", p[0] + JoinPath(p[1..]), "/", q[0] + JoinPath(q[1..]));
      SameName(p[0], JoinPath(p[1..]), q[0], JoinPath(q[1..]));
      SamePath(p[1..], q[1..]);
    }
  }

  lemma SameSession(p: Principal, q: Principal)
    requires PrincipalOk(p) && PrincipalOk(q) && p.Session? && q.Session? && Resource(p) == Resource(q)
    ensures p.role == q.role && p.session == q.session
  {
    assert Resource(p) == ":assumed-role/" + (p.role + ("/" + p.session));
    assert Resource(q) == ":assumed-role/" + (q.role + ("/" + q.session));
    Cancel(":assumed-role/", p.role + ("/" + p.session), ":assumed-role/", q.role + ("/" + q.session));
    NameHasNoSlash(p.role);
    NameHasNoSlash(q.role);
    SameName(p.role, "/" + p.session, q.role, "/" + q.session);
    Cancel("/", p.session, "/", q.session);
  }

  lemma SameNames(p: Principal, q: Principal)
    requires PrincipalOk(p) && PrincipalOk(q) && !p.Session? && !q.Session? && p.Role? == q.Role? && Resource(p) == Resource(q)
    ensures p.path == q.path
  {
    var kind := if p.Role? then ":role" else ":user";
    Cancel(kind, JoinPath(p.path), kind, JoinPath(q.path));
    forall n | n in p.path || n in q.path ensures '/' !in n {
      NameHasNoSlash(n);
    }
    SamePath(p.path, q.path);
  }

  /** An accepted principal is determined by its ARN text. */
  lemma OriginalIsInjective(p: Principal, q: Principal)
    requires PrincipalOk(p) && PrincipalOk(q) && Original(p) == Original(q)
    ensures p == q
  {
    OriginalTellsKind(p, q);
    Cancel(Service(p) + p.account, Resource(p), Service(q) + q.account, Resource(q));
    if p.Session? {
      SameSession(p, q);
    } else {
      SameNames(p, q);
    }
  }

  lemma SameAlias(p: Principal, q: Principal)
    requires PrincipalOk(p) && PrincipalOk(q)
    ensures RoleAlias(p) == RoleAlias(q) <==> p.account == q.account && RoleName(p) == RoleName(q)
  {
    if RoleAlias(p) == RoleAlias(q) {
      SameFields("aws/", p.account, "/", RoleName(p), q.account, RoleName(q));
    }
  }

  /**
   * Which attachments match which callers, on the parsed ARNs: a role matches the
   * sessions of its account whose role is the last name of its path, whatever the path;
   * every other attachment matches the principal it names and no other.
   */
  lemma MatchingExactly(target: Principal, caller: Principal)
    requires PrincipalOk(target) && PrincipalOk(caller)
    ensures MatchesPrincipal(target, caller) <==>
      if target.Role? && caller.Session?
      then target.account == caller.account && target.path[|target.path| - 1] == caller.role
      else target == caller
  {
    if Original(target) == Original(caller) { OriginalIsInjective(target, caller); }
    SameAlias(target, caller);
  }

  /**
   * Looking under a caller's keys is filtering with matchesPrincipal: an attachment's
   * key is among the caller's exactly when its principal matches the caller.
   */
  lemma KeysAreMatching(target: Principal, caller: Principal)
    requires PrincipalOk(target) && PrincipalOk(caller) && !caller.Role?
    ensures PrincipalKey(target) in LookupKeys(caller) <==> MatchesPrincipal(target, caller)
  {
    if PrincipalKey(target) == PrincipalKey(caller) { SamePrincipalKey(target, caller); }
    if caller.Session? && PrincipalKey(target) == RoleKey(caller) { RoleKeyIsRoleAlias(target, caller); }
    if MatchesPrincipal(target, caller) {
      if Original(target) == Original(caller) {
        OriginalTellsKind(target, caller);
      } else {
        RoleAliasTellsAccount(target, caller);
      }
    }
  }

  /** The two keys of a session differ. */
  lemma LookupKeysAreDistinct(caller: Principal)
    requires PrincipalOk(caller) && caller.Session?
    ensures PrincipalKey(caller) != RoleKey(caller)
  {
    KeyTellsRole(caller);
  }
}
