/**
 * The service token commands as seen by Consul: what each command asks next, and how it reacts to a reply.
 * `TokenCommands` proves that the commands follow these automata; `TokenRuns` interleaves any number of them.
 */
module ServiceTokens {
  import opened GoText
  import opened LegacyTokens

  /** An AccessorID: the name-based UUID of a name (taken to be collision-free), or a random one. */
  datatype Accessor = Derived(name: string) | Random(id: nat)

  function ServiceTokenAccessorID(service: string, nodeName: string): Accessor {
    Derived(service + "/" + nodeName)
  }

  /** No other pair has the AccessorID of this one. */
  ghost predicate OwnsAccessor(service: string, nodeName: string) {
    forall s, n :: ServiceTokenAccessorID(s, n) == ServiceTokenAccessorID(service, nodeName) ==>
      s == service && n == nodeName
  }

  /** A pair owns its AccessorID exactly when neither part holds a slash. */
  lemma AccessorOwnership(service: string, nodeName: string)
    ensures OwnsAccessor(service, nodeName) <==> '/' !in service && '/' !in nodeName
  {
    if '/' in service {
      var a, b := Before(service, '/'), service[|Before(service, '/')| + 1..];
      assert service == a + "/" + b;
      assert a + "/" + (b + "/" + nodeName) == service + "/" + nodeName;
      assert ServiceTokenAccessorID(a, b + "/" + nodeName) == ServiceTokenAccessorID(service, nodeName);
    } else if '/' in nodeName {
      var a, b := Before(nodeName, '/'), nodeName[|Before(nodeName, '/')| + 1..];
      assert nodeName == a + "/" + b;
      assert (service + "/" + a) + "/" + b == service + "/" + nodeName;
      assert ServiceTokenAccessorID(service + "/" + a, b) == ServiceTokenAccessorID(service, nodeName);
    } else {
      forall s, n | ServiceTokenAccessorID(s, n) == ServiceTokenAccessorID(service, nodeName)
        ensures s == service && n == nodeName
      {
        SameName(s, n, service, nodeName);
      }
    }
  }

  lemma SameName(s: string, n: string, service: string, nodeName: string)
    requires s + "/" + n == service + "/" + nodeName && '/' !in service && '/' !in nodeName
    ensures s == service && n == nodeName
  {
    CutAt(service, '/', nodeName);
    if '/' in s {
      var a, b := Before(s, '/'), s[|Before(s, '/')| + 1..];
      assert (b + "/" + n)[|b|] == '/';
      assert s + "/" + n == a + "/" + (b + "/" + n);
      CutAt(a, '/', b + "/" + n);
    } else {
      CutAt(s, '/', n);
    }
  }

  /** `uuid.Parse` succeeds on the canonical form; the redacted "<hidden>" is no UUID. */
  predicate IsSecretID(s: string) {
    && |s| == 36
    && forall i :: 0 <= i < 36 ==> if i in {8, 13, 18, 23} then s[i] == '-' else IsHex(s[i])
  }

  predicate IsHex(c: char) { '0' <= c <= '9' || 'a' <= c <= 'f' || 'A' <= c <= 'F' }

  datatype Token = Token(accessor: Accessor, secret: string, description: string, policies: seq<string>)

  datatype ListEntry = ListEntry(accessor: Accessor, description: string)

  /** A failed API call: an HTTP status, or no answer. */
  datatype ApiError = Status(code: int, body: string) | NoAnswer

  predicate IsTokenNotFound(e: ApiError) {
    e.Status? && (e.code == 404 || (e.code == 403 && Contains(e.body, "ACL not found")))
  }

  datatype Request =
    | AskNodeName
    | ReadToken(accessor: Accessor)
    | CreateToken(token: Token)
    | UpdateToken(token: Token)
    | ListByPolicy(policy: string)
    | DeleteToken(accessor: Accessor)

  datatype Reply =
    | NodeNameIs(name: string)
    | TokenIs(token: Token)
    | Created(token: Token)
    | Updated
    | Entries(entries: seq<ListEntry>)
    | Deleted
    | Failed(error: ApiError)

  predicate Answers(q: Request, r: Reply) {
    r.Failed? || match q
      case AskNodeName => r.NodeNameIs?
      case ReadToken(_) => r.TokenIs?
      case CreateToken(_) => r.Created?
      case UpdateToken(_) => r.Updated?
      case ListByPolicy(_) => r.Entries?
      case DeleteToken(_) => r.Deleted?
  }

  datatype Failure =
    | NodeNameUnreadable(cause: ApiError)
    | CreateFailed(cause: ApiError)
    | ReadFailed(cause: ApiError)
    | SecretRedacted
    | LinkFailed(cause: ApiError)
    | NotEnsured
    | ListFailed(cause: ApiError)
    | DeleteFailed(accessor: Accessor, cause: ApiError)

  datatype EnsureState =
    | EnsureStart
    | Reading(node: string)
    | Creating(node: string)
    | Rereading(node: string, createError: ApiError)
    | Linking(node: string, token: Token)
    | Ensured(node: string, secret: string)
    | EnsureFailed(why: Failure)

  datatype PruneState =
    | PruneStart
    | CheckingCurrent(node: string)
    | Listing(node: string)
    | Deleting(node: string, pending: seq<Accessor>, deleted: seq<Accessor>)
    | Pruned(deleted: seq<Accessor>)
    | PruneFailed(deleted: seq<Accessor>, why: Failure)

  datatype Process =
    | Ensure(service: string, policy: string, ensure: EnsureState)
    | Prune(service: string, policy: string, legacyNames: seq<string>, hostnames: seq<string>, prune: PruneState)

  ghost predicate AtStart(p: Process) {
    match p
    case Ensure(_, _, state) => state == EnsureStart
    case Prune(_, _, _, _, state) => state == PruneStart
  }

  /** The token an ensure creates; Consul adds the secret. */
  function NewToken(service: string, node: string, policy: string): Token {
    Token(ServiceTokenAccessorID(service, node), "", ServiceTokenDescription(service, node), [policy])
  }

  predicate Skips(entry: ListEntry, current: Accessor, legacyNames: seq<string>, hostnames: seq<string>) {
    entry.accessor == current || !IsLegacyServiceToken(entry.description, legacyNames, hostnames)
  }

  /** The accessors a prune sets out to delete, in list order. */
  function Matching(entries: seq<ListEntry>, current: Accessor, legacyNames: seq<string>, hostnames: seq<string>)
    : seq<Accessor>
  {
    if entries == [] then [] else
      (if Skips(entries[0], current, legacyNames, hostnames) then [] else [entries[0].accessor])
      + Matching(entries[1..], current, legacyNames, hostnames)
  }

  /** The next API call of a command, `None` once it has returned. */
  function Asks(p: Process): Option<Request> {
    match p
    case Ensure(service, policy, state) =>
      (match state
       case EnsureStart => Some(AskNodeName)
       case Reading(node) => Some(ReadToken(ServiceTokenAccessorID(service, node)))
       case Creating(node) => Some(CreateToken(NewToken(service, node, policy)))
       case Rereading(node, _) => Some(ReadToken(ServiceTokenAccessorID(service, node)))
       case Linking(_, token) => Some(UpdateToken(token))
       case _ => None)
    case Prune(service, policy, _, _, state) =>
      (match state
       case PruneStart => Some(AskNodeName)
       case CheckingCurrent(node) => Some(ReadToken(ServiceTokenAccessorID(service, node)))
       case Listing(_) => Some(ListByPolicy(policy))
       case Deleting(_, pending, _) => if pending == [] then None else Some(DeleteToken(pending[0]))
       case _ => None)
  }

  /** What an ensure does with a token it read. */
  function Adopt(node: string, policy: string, token: Token): EnsureState {
    if !IsSecretID(token.secret) then EnsureFailed(SecretRedacted)
    else if policy in token.policies then Ensured(node, token.secret)
    else Linking(node, token.(policies := token.policies + [policy]))
  }

  function EnsureAfter(service: string, policy: string, state: EnsureState, r: Reply): EnsureState {
    match (state, r)
    case (EnsureStart, NodeNameIs(name)) => Reading(name)
    case (EnsureStart, Failed(e)) => EnsureFailed(NodeNameUnreadable(e))
    case (Reading(node), TokenIs(token)) => Adopt(node, policy, token)
    case (Reading(node), Failed(e)) => if IsTokenNotFound(e) then Creating(node) else EnsureFailed(ReadFailed(e))
    case (Creating(node), Created(token)) => Ensured(node, token.secret)
    case (Creating(node), Failed(e)) => Rereading(node, e)
    case (Rereading(node, _), TokenIs(token)) => Adopt(node, policy, token)
    case (Rereading(_, e), Failed(_)) => EnsureFailed(CreateFailed(e))
    case (Linking(node, token), Updated) => Ensured(node, token.secret)
    case (Linking(_, _), Failed(e)) => EnsureFailed(LinkFailed(e))
    case _ => state
  }

  /** A prune with nothing left to delete has returned. */
  function Continue(node: string, pending: seq<Accessor>, deleted: seq<Accessor>): PruneState {
    if pending == [] then Pruned(deleted) else Deleting(node, pending, deleted)
  }

  function PruneAfter(p: Process, r: Reply): PruneState
    requires p.Prune?
  {
    match (p.prune, r)
    case (PruneStart, NodeNameIs(name)) => CheckingCurrent(name)
    case (PruneStart, Failed(e)) => PruneFailed([], NodeNameUnreadable(e))
    case (CheckingCurrent(node), TokenIs(_)) => Listing(node)
    case (CheckingCurrent(_), Failed(e)) => PruneFailed([], if IsTokenNotFound(e) then NotEnsured else ReadFailed(e))
    case (Listing(node), Entries(entries)) =>
      Continue(node, Matching(entries, ServiceTokenAccessorID(p.service, node), p.legacyNames, p.hostnames), [])
    case (Listing(_), Failed(e)) => PruneFailed([], ListFailed(e))
    case (Deleting(node, pending, deleted), Deleted) =>
      if pending == [] then p.prune else Continue(node, pending[1..], deleted + [pending[0]])
    case (Deleting(_, pending, deleted), Failed(e)) =>
      if pending == [] then p.prune else PruneFailed(deleted, DeleteFailed(pending[0], e))
    case _ => p.prune
  }

  function After(p: Process, r: Reply): Process {
    match p
    case Ensure(service, policy, state) => p.(ensure := EnsureAfter(service, policy, state, r))
    case Prune(_, _, _, _, _) => p.(prune := PruneAfter(p, r))
  }

  /** The command after these replies, from whatever store they come. */
  function React(p: Process, replies: seq<Reply>): Process {
    if replies == [] then p else After(React(p, replies[..|replies| - 1]), replies[|replies| - 1])
  }

  /** Every reply answers what the command asks at that point; the store may change between them in any way. */
  ghost predicate Answered(p: Process, replies: seq<Reply>) {
    replies != [] ==>
      var front := replies[..|replies| - 1];
      var q := Asks(React(p, front));
      Answered(p, front) && q.Some? && Answers(q.value, replies[|replies| - 1])
  }

  lemma LastReply(p: Process, replies: seq<Reply>) returns (front: seq<Reply>, q: Process, r: Reply)
    requires replies != [] && Answered(p, replies)
    ensures replies == front + [r] && q == React(p, front) && React(p, replies) == After(q, r)
    ensures Answered(p, front) && Asks(q).Some? && Answers(Asks(q).value, r)
  {
    front, r := replies[..|replies| - 1], replies[|replies| - 1];
    q := React(p, front);
  }

  type Store = map<Accessor, Token>

  function Redacted(t: Token): Token { t.(secret := "<hidden>") }

  /**
   * What Consul may do with a request: any call may fail, and a change may take effect although its reply is
   * lost. A create is rejected when the AccessorID is in use, an update when the secret is not the stored one.
   */
  ghost predicate Serves(store: Store, q: Request, r: Reply, store': Store) {
    && Answers(q, r)
    && match q
       case AskNodeName => store' == store
       case ReadToken(a) =>
         && store' == store
         && (r.TokenIs? ==> a in store && (r.token == store[a] || r.token == Redacted(store[a])))
       case CreateToken(t) =>
         || (store' == store && r.Failed?)
         || (&& t.accessor !in store && t.accessor in store'
             && store' == store[t.accessor := t.(secret := store'[t.accessor].secret)]
             && (r.Created? ==> r.token == store'[t.accessor]))
       case UpdateToken(t) =>
         || (store' == store && r.Failed?)
         || (t.accessor in store && store[t.accessor].secret == t.secret && store' == store[t.accessor := t])
       case ListByPolicy(policy) =>
         && store' == store
         && (r.Entries? ==> Listed(store, policy, r.entries))
       case DeleteToken(a) =>
         || (store' == store && r.Failed?)
         || store' == store - {a}
  }

  /** Every entry lists a stored token linked to the policy. */
  ghost predicate Listed(store: Store, policy: string, entries: seq<ListEntry>) {
    forall i :: 0 <= i < |entries| ==>
      && entries[i].accessor in store
      && store[entries[i].accessor].description == entries[i].description
      && policy in store[entries[i].accessor].policies
  }
}
